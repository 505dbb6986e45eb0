/** internal/cli/notary.go: one run over one tenant, as the loop it is, and that
    the loop is one of the interleavings `SealProtocol` is about. */
module Notary {
  import opened Options
  import opened Seals
  import opened SealProtocol
  import Layout
  import LastSeal
  import Lex

  /** How a run over a tenant ended. */
  datatype Outcome = Done | Problems(hour: int) | Unchainable(tail: int) | FirstIsNoRecord

  /** What a run leaves: the bucket, the hours it sealed, how many it found
      sealed by another, and the newest hour the tenant is now sealed to. */
  datatype Result = Result(bucket: Bucket, sealed: seq<int>, present: nat, newest: Option<int>, outcome: Outcome)

  /** The moment and the signature a run has for an hour: each is read afresh. */
  datatype Inputs = Inputs(clock: int -> int, signature: int -> nat)

  function Statement(c: Setting, q: Inputs, b: Bucket, hour: int, prev: string): Body
  {
    var held := HeldBy(ObjectsOf(b.objects, hour), true);
    Signed(NewSeal(c.profile, c.tenant, hour, held, prev, q.clock(hour)), q.signature(hour))
  }

  /** The loop over the hours from one on, as a function of where it stands. */
  function Loop(c: Setting, q: Inputs, r: Result, hour: int, last: int, prev: string, retain: nat): Result
    decreases last - hour
  {
    if last < hour then r.(outcome := Done)
    else
      var held := HeldBy(ObjectsOf(r.bucket.objects, hour), true);
      if held.problems > 0 then r.(outcome := Problems(hour))
      else
        var until := if held.retain == 0 then retain else held.retain;
        var body := Statement(c, q, r.bucket, hour, prev);
        if hour in r.bucket.seals then
          Loop(c, q, r.(present := r.present + 1, newest := Some(hour)), hour + 1, last,
               c.hash(r.bucket.seals[hour].body), until)
        else
          Loop(c, q, r.(bucket := r.bucket.(seals := r.bucket.seals[hour := Stored(body, until)]),
                        sealed := r.sealed + [hour], newest := Some(hour)),
               hour + 1, last, c.hash(body), until)
  }

  /** The tenant's first key, as a listing of one gives it. */
  datatype FirstKey = NoKey | NotARecord | RecordOf(hour: int)

  /** A run over a tenant, from the newest seal that was found. */
  function Whole(c: Setting, q: Inputs, r: Result, tail: Option<int>, first: FirstKey, last: int): Result
    requires tail.Some? ==> tail.value in r.bucket.seals
  {
    match tail
    case Some(at) =>
      var stored := r.bucket.seals[at];
      (match ParseSeal(stored.body)
       case Unreadable(_) => r.(newest := None, outcome := Unchainable(at))
       case Statement(seal) =>
         if seal.profile != c.profile || seal.tenant != c.tenant || seal.hour != at then
           r.(newest := None, outcome := Unchainable(at))
         else Loop(c, q, r.(newest := Some(at)), at + 1, last, c.hash(stored.body), stored.retain))
    case None =>
      match first
      case NoKey => r.(newest := None, outcome := Done)
      case NotARecord => r.(newest := None, outcome := FirstIsNoRecord)
      case RecordOf(hour) => Loop(c, q, r.(newest := None), hour, last, "", 0)
  }

  /** What the listing of one key says of the bucket. */
  ghost predicate Tells(first: FirstKey, b: Bucket)
  {
    match first
    case NoKey => b.objects.Keys == {} && !b.strayFirst
    case NotARecord => b.strayFirst || (HasObjects(b.objects) && b.objects[First(b.objects)][0].Stray?)
    case RecordOf(hour) =>
        !b.strayFirst && HasObjects(b.objects) && hour == First(b.objects) && b.objects[hour][0].Object?
  }

  /** The hour of the newest seal, if there is one. */
  ghost predicate IsTail(seals: map<int, Stored>, tail: Option<int>)
  {
    if tail.None? then seals.Keys == {} else tail.value in seals && forall h :: h in seals ==> h <= tail.value
  }

  /** The keys of a tenant's seals are those of the hours that have one, among
      whatever other keys. */
  ghost predicate Lists(keys: seq<string>, c: Setting, seals: map<int, Stored>)
  {
    && Lex.Increasing(keys) && Layout.Component(c.profile) && Layout.Component(c.tenant)
    && (forall h :: h in seals ==> Layout.FourDigitYear(h))
    && forall h :: Layout.FourDigitYear(h) ==> (Layout.SealKey(c.profile, c.tenant, h) in keys <==> h in seals)
  }

  /** The archive and the report a run changes. */
  class Sealer {
    var bucket: Bucket
    var sealed: seq<int>
    var present: nat

    constructor (b: Bucket)
      ensures bucket == b && sealed == [] && present == 0
    {
      bucket, sealed, present := b, [], 0;
    }

    /** `Store.Put`: it refuses a key that is taken. */
    method Put(hour: int, o: Stored) returns (taken: bool)
      modifies this`bucket
      ensures taken <==> hour in old(bucket).seals
      ensures bucket == if taken then old(bucket) else old(bucket).(seals := old(bucket).seals[hour := o])
    {
      taken := hour in bucket.seals;
      if !taken {
        bucket := bucket.(seals := bucket.seals[hour := o]);
      }
    }

    /** Hour after hour, until one that has problems. */
    method Seal(c: Setting, q: Inputs, from: int, last: int, link: string, kept: nat, tail: Option<int>)
      returns (outcome: Outcome, newest: Option<int>)
      modifies this
      ensures Result(bucket, sealed, present, newest, outcome)
           == Loop(c, q, Result(old(bucket), old(sealed), old(present), tail, Done), from, last, link, kept)
    {
      var hour, prev, retain := from, link, kept;
      newest := tail;
      ghost var all := Loop(c, q, Result(bucket, sealed, present, tail, Done), from, last, link, kept);
      while hour <= last
        invariant all == Loop(c, q, Result(bucket, sealed, present, newest, Done), hour, last, prev, retain)
        decreases last - hour
      {
        var held := Compute(ObjectsOf(bucket.objects, hour), true);
        if held.problems > 0 {
          return Problems(hour), newest;
        }
        var until := held.retain;
        if until == 0 {
          until := retain;
        }
        var compact := Signed(NewSeal(c.profile, c.tenant, hour, held, prev, q.clock(hour)), q.signature(hour));
        var taken := Put(hour, Stored(compact, until));
        if taken {
          compact := bucket.seals[hour].body;
          present := present + 1;
        } else {
          sealed := sealed + [hour];
        }
        prev, retain, newest := c.hash(compact), until, Some(hour);
        hour := hour + 1;
      }
      return Done, newest;
    }

    /** One run: chain onto the newest seal, or begin at the first object. */
    method Tenant(c: Setting, q: Inputs, tail: Option<int>, first: FirstKey, last: int)
      returns (outcome: Outcome, newest: Option<int>)
      requires tail.Some? ==> tail.value in bucket.seals
      modifies this
      ensures Result(bucket, sealed, present, newest, outcome)
           == Whole(c, q, Result(old(bucket), old(sealed), old(present), None, Done), tail, first, last)
    {
      if tail.Some? {
        var stored := bucket.seals[tail.value];
        var typed := ParseSeal(stored.body);
        if typed.Unreadable? {
          return Unchainable(tail.value), None;
        }
        if typed.seal.profile != c.profile || typed.seal.tenant != c.tenant || typed.seal.hour != tail.value {
          return Unchainable(tail.value), None;
        }
        outcome, newest := Seal(c, q, tail.value + 1, last, c.hash(stored.body), stored.retain, tail);
      } else {
        match first {
          case NoKey => return Done, None;
          case NotARecord => return FirstIsNoRecord, None;
          case RecordOf(hour) => outcome, newest := Seal(c, q, hour, last, "", 0, None);
        }
      }
    }

    /** The descent to the newest seal finds it, and its key gives the hour. */
    method NewestSeal(keys: seq<string>, c: Setting) returns (tail: Option<int>)
      requires Lists(keys, c, bucket.seals)
      ensures IsTail(bucket.seals, tail)
    {
      hide Layout.SealKey, Layout.ParseSealKey, Layout.FourDigitYear;
      var e := LastSeal.Newest(keys, c.profile, c.tenant);
      if e.None? {
        assert forall h :: h !in bucket.seals;
        return None;
      }
      ghost var newest :| && LastSeal.IsNewest(newest, keys, c.profile, c.tenant)
                          && e.value == Layout.SealKey(c.profile, c.tenant, newest);
      Layout.SealKeyExact(e.value, Layout.SealObject(c.profile, c.tenant, newest));
      return Some(Layout.ParseSealKey(e.value).value.hour);
    }

    /** The same, from the newest seal that the descent finds among the keys of
        the bucket. */
    method RunOn(c: Setting, q: Inputs, keys: seq<string>, first: FirstKey, last: int)
      returns (outcome: Outcome, newest: Option<int>)
      requires Lists(keys, c, bucket.seals) && Tells(first, bucket)
      modifies this
      ensures exists tail ::
                && IsTail(old(bucket).seals, tail)
                && Result(bucket, sealed, present, newest, outcome)
                   == Whole(c, q, Result(old(bucket), old(sealed), old(present), None, Done), tail, first, last)
    {
      hide Lists, Tells, Whole;
      var tail := NewestSeal(keys, c);
      outcome, newest := Tenant(c, q, tail, first, last);
    }
  }

  /** A step of one notary, or several in a row, from one state to another. */
  ghost predicate Steps(c: Setting, trace: seq<State>, i: nat)
  {
    && trace != []
    && forall k :: 0 <= k < |trace| - 1 ==> NotaryStep(c, trace[k], trace[k + 1], i)
  }

  lemma Prepend(c: Setting, s: State, trace: seq<State>, i: nat)
    requires Steps(c, trace, i) && NotaryStep(c, s, trace[0], i)
    ensures Steps(c, [s] + trace, i)
  {
    hide NotaryStep;
    var longer := [s] + trace;
    forall k | 0 <= k < |longer| - 1 ensures NotaryStep(c, longer[k], longer[k + 1], i) {
      if k > 0 { assert NotaryStep(c, trace[k - 1], trace[k], i); }
    }
  }

  /** The two or three steps an hour takes: sign, put, and adopt what another
      put first. */
  lemma HourIsSteps(c: Setting, q: Inputs, s: State, i: nat) returns (ready: State, t: State)
    requires i in s.runs && s.runs[i].Sealing? && s.runs[i].hour <= s.runs[i].last
    requires s.runs[i].start <= q.clock(s.runs[i].hour) <= s.now
    requires HeldBy(ObjectsOf(s.bucket.objects, s.runs[i].hour), true).problems == 0
    ensures NotaryStep(c, s, ready, i) && NotaryStep(c, ready, t, i)
    ensures i in t.runs && t.now == s.now
    ensures var r := s.runs[i];
            var held := HeldBy(ObjectsOf(s.bucket.objects, r.hour), true);
            var until := if held.retain == 0 then r.retain else held.retain;
            var body := Statement(c, q, s.bucket, r.hour, r.prev);
            if r.hour in s.bucket.seals then
              t.bucket == s.bucket && t.runs[i] == Taken(r.start, r.last, r.hour, until)
            else
              && t.bucket == s.bucket.(seals := s.bucket.seals[r.hour := Stored(body, until)])
              && t.runs[i] == Sealing(r.start, r.last, r.hour + 1, c.hash(body), until)
  {
    hide HeldBy, NewSeal;
    var r := s.runs[i];
    var held := HeldBy(ObjectsOf(s.bucket.objects, r.hour), true);
    var until := if held.retain == 0 then r.retain else held.retain;
    var body := Statement(c, q, s.bucket, r.hour, r.prev);
    var signed := Ready(r.start, r.last, r.hour, body, until);
    assert Sign(c, s, r, signed, q.clock(r.hour), q.signature(r.hour));
    ready := s.(runs := s.runs[i := signed]);
    if r.hour in s.bucket.seals {
      t := ready.(runs := ready.runs[i := Taken(r.start, r.last, r.hour, until)]);
    } else {
      t := ready.(bucket := s.bucket.(seals := s.bucket.seals[r.hour := Stored(body, until)]),
                  runs := ready.runs[i := Sealing(r.start, r.last, r.hour + 1, c.hash(body), until)]);
    }
    assert Put(c, ready, t, signed, t.runs[i]);
  }

  /** The loop is a run of the protocol in which nobody else takes a step: it
      ends with the bucket the protocol ends with, and every state on the way is
      one the protocol's invariant holds in. */
  lemma {:induction false} LoopIsSteps(c: Setting, q: Inputs, s: State, i: nat, r: Result) returns (trace: seq<State>)
    requires i in s.runs && s.runs[i].Sealing? && r.bucket == s.bucket
    requires forall h :: s.runs[i].hour <= h <= s.runs[i].last ==> s.runs[i].start <= q.clock(h) <= s.now
    ensures Steps(c, trace, i) && trace[0] == s
    ensures var after := Loop(c, q, r, s.runs[i].hour, s.runs[i].last, s.runs[i].prev, s.runs[i].retain);
            var end := trace[|trace| - 1];
            && end.bucket == after.bucket && i in end.runs && end.now == s.now
            && (if after.outcome.Done? then end.runs[i] == Finished(s.runs[i].start, s.runs[i].last)
                else end.runs[i].Idle?)
    decreases s.runs[i].last - s.runs[i].hour
  {
    hide HeldBy, Statement;
    var run := s.runs[i];
    if run.last < run.hour {
      trace := [s, s.(runs := s.runs[i := Finished(run.start, run.last)])];
    } else if HeldBy(ObjectsOf(s.bucket.objects, run.hour), true).problems > 0 {
      trace := [s, s.(runs := s.runs[i := Idle])];
    } else {
      var ready, t := HourIsSteps(c, q, s, i);
      if run.hour in s.bucket.seals {
        var until := t.runs[i].until;
        var next := Sealing(run.start, run.last, run.hour + 1, c.hash(s.bucket.seals[run.hour].body), until);
        var u := t.(runs := t.runs[i := next]);
        assert NotaryStep(c, t, u, i);
        hide NotaryStep;
        trace := LoopIsSteps(c, q, u, i, r.(present := r.present + 1, newest := Some(run.hour)));
        Prepend(c, t, trace, i);
        trace := [t] + trace;
      } else {
        hide NotaryStep;
        trace := LoopIsSteps(c, q, t, i,
          r.(bucket := t.bucket, sealed := r.sealed + [run.hour], newest := Some(run.hour)));
      }
      Prepend(c, ready, trace, i);
      Prepend(c, s, [ready] + trace, i);
      trace := [s] + ([ready] + trace);
    }
  }

  /** So what the loop leaves behind is still a chain, and when it ends without
      a problem every hour up to its last is sealed. */
  lemma LoopKeepsTheChain(c: Setting, q: Inputs, s: State, i: nat, r: Result)
    requires Inv(c, s) && i in s.runs && s.runs[i].Sealing? && r.bucket == s.bucket
    requires forall h :: s.runs[i].hour <= h <= s.runs[i].last ==> s.runs[i].start <= q.clock(h) <= s.now
    ensures var after := Loop(c, q, r, s.runs[i].hour, s.runs[i].last, s.runs[i].prev, s.runs[i].retain);
            && IsChain(c.hash, after.bucket)
            && (after.outcome.Done? ==> AllSealed(after.bucket, s.runs[i].last))
  {
    hide Loop, Chain, NotaryStep, IsChain, AllSealed;
    var trace := LoopIsSteps(c, q, s, i, r);
    StepsKeep(c, trace, i, |trace| - 1);
    var end := trace[|trace| - 1];
    ChainMeans(c, end.now, end.bucket);
  }

  /** A whole run keeps the chain, whatever it finds, and one that ends without
      fault leaves no hour up to its last unsealed. */
  lemma RunKeepsTheChain(c: Setting, q: Inputs, s: State, i: nat, r: Result, tail: Option<int>, first: FirstKey)
    requires Inv(c, s) && i in s.runs && s.runs[i].Started? && r.bucket == s.bucket
    requires (tail.Some? ==> tail.value in s.bucket.seals) && Tells(first, s.bucket)
    requires forall h :: h <= s.runs[i].last ==> s.runs[i].start <= q.clock(h) <= s.now
    ensures var after := Whole(c, q, r, tail, first, s.runs[i].last);
            && IsChain(c.hash, after.bucket)
            && (after.outcome.Done? ==> AllSealed(after.bucket, s.runs[i].last))
  {
    hide Loop, Chain, IsChain, AllSealed, LastSealable;
    ChainMeans(c, s.now, s.bucket);
    var run := s.runs[i];
    match tail
    case Some(at) =>
      var stored := s.bucket.seals[at];
      var next := Sealing(run.start, run.last, at + 1, c.hash(stored.body), stored.retain);
      if FindTail(c, s, run, next, at) {
        Advance(c, q, s, i, r.(newest := Some(at)), next);
      }
    case None =>
      match first
      case NotARecord =>
      case NoKey => Advance(c, q, s, i, r, Finished(run.start, run.last));
      case RecordOf(hour) => Advance(c, q, s, i, r.(newest := None), Sealing(run.start, run.last, hour, "", 0));
  }

  /** The one step that takes a run to where its loop begins. */
  lemma Advance(c: Setting, q: Inputs, s: State, i: nat, r: Result, next: Run)
    requires Inv(c, s) && i in s.runs && s.runs[i].Started? && r.bucket == s.bucket
    requires (exists at :: FindTail(c, s, s.runs[i], next, at)) || FindFirst(c, s, s.runs[i], next)
    requires next.Sealing? || next.Finished?
    requires next.start == s.runs[i].start && next.last == s.runs[i].last
    requires forall h :: h <= s.runs[i].last ==> s.runs[i].start <= q.clock(h) <= s.now
    ensures next.Sealing? ==>
              var after := Loop(c, q, r, next.hour, next.last, next.prev, next.retain);
              IsChain(c.hash, after.bucket) && (after.outcome.Done? ==> AllSealed(after.bucket, s.runs[i].last))
    ensures next.Finished? ==> AllSealed(s.bucket, s.runs[i].last)
  {
    hide Loop, Chain, IsChain, AllSealed, LastSealable, FindTail, FindFirst, AtHour;
    var t := s.(runs := s.runs[i := next]);
    assert NotaryStep(c, s, t, i);
    NotaryKeeps(c, s, t, i);
    assert RunOk(c, t.now, t.bucket, t.runs[i]);
    if next.Sealing? { LoopKeepsTheChain(c, q, t, i, r); }
  }

  lemma {:induction false} StepsKeep(c: Setting, trace: seq<State>, i: nat, k: nat)
    requires Steps(c, trace, i) && k < |trace| && Inv(c, trace[0])
    ensures Inv(c, trace[k])
    decreases k
  {
    hide Inv, NotaryStep;
    if k > 0 {
      StepsKeep(c, trace, i, k - 1);
      assert NotaryStep(c, trace[k - 1], trace[k], i);
      NotaryKeeps(c, trace[k - 1], trace[k], i);
    }
  }
}
