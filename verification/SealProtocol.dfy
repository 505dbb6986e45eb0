/** Any number of notaries sealing one tenant at once: the steps of
    internal/cli/notary.go's `tenant` between two requests to the store, taken
    in any order by any of them, while the writer goes on putting objects.

    The bucket refuses a second put of a key, and nothing in it is deleted. What
    the deployment promises is that an hour does not change once the settle
    window after it has passed. Clocks: a notary reads some moment that is not
    after the present, and never one before its own last reading. A notary may
    stop at any step, and a listing may be as old as it likes. */
module SealProtocol {
  import opened Options
  import opened Seals

  type Hasher = Body -> string

  /** What a deployment fixes. */
  datatype Setting = Setting(profile: string, tenant: string, settle: nat, hash: Hasher)

  /** Where one run of a notary stands in the tenant's chain. */
  datatype Run =
    | Idle
    | Started(start: int, last: int)
    | Sealing(start: int, last: int, hour: int, prev: string, retain: nat)
    | Ready(start: int, last: int, hour: int, body: Body, until: nat)
    | Taken(start: int, last: int, hour: int, until: nat)
    | Finished(start: int, last: int)

  datatype State = State(now: int, bucket: Bucket, runs: map<nat, Run>)

  ghost predicate Init(s: State)
  {
    && s.bucket.seals == map[]
    && (s.bucket.objects.Keys != {} ==> HasObjects(s.bucket.objects))
    && forall i :: i in s.runs ==> s.runs[i].Idle?
  }

  /** The writer's step, and time's: an hour that is sealable stays as it is. */
  ghost predicate Outside(c: Setting, s: State, t: State)
  {
    && s.now <= t.now
    && t.runs == s.runs
    && t.bucket.seals == s.bucket.seals
    && (t.bucket.objects.Keys != {} ==> HasObjects(t.bucket.objects))
    && forall h :: h <= LastSealable(s.now, c.settle) ==>
         (h in t.bucket.objects <==> h in s.bucket.objects)
         && (h in s.bucket.objects ==> t.bucket.objects[h] == s.bucket.objects[h])
  }

  /** A run begins by reading the clock. */
  predicate Begin(c: Setting, s: State, r: Run, next: Run)
  {
    next.Started? && next.start <= s.now && next.last == LastSealable(next.start, c.settle)
  }

  /** The tail is read: any seal there is, which a stale listing took for the
      newest. A seal that says it covers something else ends the run. */
  predicate FindTail(c: Setting, s: State, r: Run, next: Run, tail: int)
  {
    && r.Started? && tail in s.bucket.seals
    && var stored := s.bucket.seals[tail];
       match ParseSeal(stored.body)
       case Unreadable(_) => next.Idle?
       case Statement(seal) =>
         if seal.profile != c.profile || seal.tenant != c.tenant || seal.hour != tail then next.Idle?
         else next == Sealing(r.start, r.last, tail + 1, c.hash(stored.body), stored.retain)
  }

  /** No seal was found, so the run begins at the hour of the first object. */
  ghost predicate FindFirst(c: Setting, s: State, r: Run, next: Run)
  {
    && r.Started?
    && if s.bucket.objects.Keys == {} then
       (if s.bucket.strayFirst then next.Idle? else next == Finished(r.start, r.last))
       else
         HasObjects(s.bucket.objects) &&
         var first := First(s.bucket.objects);
         if s.bucket.strayFirst || s.bucket.objects[first][0].Stray? then next.Idle?
         else next == Sealing(r.start, r.last, first, "", 0)
  }

  /** An hour is read strictly and its statement signed, or the run ends. */
  predicate Sign(c: Setting, s: State, r: Run, next: Run, at: int, signature: nat)
  {
    && r.Sealing? && r.hour <= r.last && r.start <= at <= s.now
    && var held := HeldBy(ObjectsOf(s.bucket.objects, r.hour), true);
       if held.problems > 0 then next.Idle?
       else next == Ready(r.start, r.last, r.hour,
                        Signed(NewSeal(c.profile, c.tenant, r.hour, held, r.prev, at), signature),
                        if held.retain == 0 then r.retain else held.retain)
  }

  /** The statement is put if its key is free. */
  predicate Put(c: Setting, s: State, t: State, r: Run, next: Run)
  {
    && r.Ready?
    && if r.hour in s.bucket.seals then
         t.bucket == s.bucket && next == Taken(r.start, r.last, r.hour, r.until)
       else
         && t.bucket == s.bucket.(seals := s.bucket.seals[r.hour := Stored(r.body, r.until)])
         && next == Sealing(r.start, r.last, r.hour + 1, c.hash(r.body), r.until)
  }

  /** Another run sealed the hour: its seal is the one the chain goes through. */
  predicate Adopt(c: Setting, s: State, r: Run, next: Run)
  {
    && r.Taken? && r.hour in s.bucket.seals
    && next == Sealing(r.start, r.last, r.hour + 1, c.hash(s.bucket.seals[r.hour].body), r.until)
  }

  predicate Finish(r: Run, next: Run)
  {
    r.Sealing? && r.last < r.hour && next == Finished(r.start, r.last)
  }

  ghost predicate NotaryStep(c: Setting, s: State, t: State, i: nat)
  {
    && i in s.runs && i in t.runs
    && t.now == s.now && t.runs == s.runs[i := t.runs[i]]
    && var r, next := s.runs[i], t.runs[i];
       || Put(c, s, t, r, next)
       || (t.bucket == s.bucket &&
           (|| next.Idle?
            || Begin(c, s, r, next)
            || (exists tail :: FindTail(c, s, r, next, tail))
            || FindFirst(c, s, r, next)
            || (exists at, signature :: Sign(c, s, r, next, at, signature))
            || Adopt(c, s, r, next)
            || Finish(r, next)))
  }

  ghost predicate Step(c: Setting, s: State, t: State)
  {
    Outside(c, s, t) || exists i :: NotaryStep(c, s, t, i)
  }

  ghost predicate IsRun(c: Setting, states: seq<State>)
  {
    && states != [] && Init(states[0])
    && forall i :: 0 <= i < |states| - 1 ==> Step(c, states[i], states[i + 1])
  }

  // ----- what holds in every state of every run

  /** The hash the seal of an hour must name: of the seal before it, or none. */
  ghost function PrevOf(c: Setting, seals: map<int, Stored>, hour: int): string
  {
    match Lookup(seals, hour - 1)
    case None => ""
    case Some(body) => c.hash(body)
  }

  /** The retention a seal carries: that of its hour's objects, and in a quiet
      hour that of the hour before, back to the first. */
  ghost function UntilOf(objects: map<int, seq<Entry>>, first: int, hour: int): nat
    decreases hour - first
  {
    var own := HeldBy(ObjectsOf(objects, hour), true).retain;
    if own > 0 || hour <= first then own else UntilOf(objects, first, hour - 1)
  }

  /** The statement an hour has: what its objects come to, chained by `prev`,
      and made once the hour had ended. */
  ghost predicate States(c: Setting, objects: map<int, seq<Entry>>, hour: int, prev: string, body: Body)
  {
    var held := HeldBy(ObjectsOf(objects, hour), true);
    && held.problems == 0
    && body.Signed? && (hour + 1) * HOUR <= body.seal.sealedAt
    && exists at :: body.seal == NewSeal(c.profile, c.tenant, hour, held, prev, at)
  }

  /** The chain: every hour from that of the first object to the newest sealed,
      each naming the one before. */
  ghost predicate Chain(c: Setting, now: int, b: Bucket)
  {
    b.seals != map[] ==>
      && HasObjects(b.objects)
      && var first := First(b.objects);
         && b.objects[first][0].Object?
         && Spans(b.seals, first, LastSealable(now, c.settle))
         && (forall h :: h in b.seals ==> Linked(c, b, first, h))
  }

  /** Sealed hours run without a gap from the first, and none is too new. */
  ghost predicate Spans(seals: map<int, Stored>, first: int, last: int)
  {
    && first in seals
    && (forall h :: h in seals ==> first <= h <= last)
    && (forall g, h :: h in seals && first <= g <= h ==> g in seals)
  }

  ghost predicate Linked(c: Setting, b: Bucket, first: int, h: int)
    requires h in b.seals
  {
    && States(c, b.objects, h, PrevOf(c, b.seals, h), b.seals[h].body)
    && b.seals[h].retain == UntilOf(b.objects, first, h)
  }

  /** A run that is about to seal an hour stands at the end of a part of the
      chain: every hour before it is sealed, and it holds the last one's hash
      and retention. */
  ghost predicate AtHour(c: Setting, b: Bucket, hour: int, prev: string, retain: nat)
  {
    && HasObjects(b.objects)
    && var first := First(b.objects);
       && first <= hour && b.objects[first][0].Object?
       && (forall g :: first <= g < hour ==> g in b.seals)
       && prev == PrevOf(c, b.seals, hour)
       && retain == (if hour == first then 0 else UntilOf(b.objects, first, hour - 1))
  }

  /** The hour a run signed is the next of the chain, or another has sealed it. */
  ghost predicate SignedFor(c: Setting, b: Bucket, hour: int, body: Body, until: nat)
  {
    && HasObjects(b.objects)
    && var first := First(b.objects);
       && first <= hour && b.objects[first][0].Object?
       && (forall g :: first <= g < hour ==> g in b.seals)
       && until == UntilOf(b.objects, first, hour)
       && States(c, b.objects, hour, PrevOf(c, b.seals, hour), body)
  }

  ghost predicate AllSealed(b: Bucket, last: int)
  {
    forall g :: HasObjects(b.objects) && First(b.objects) <= g <= last ==> g in b.seals
  }

  ghost predicate RunOk(c: Setting, now: int, b: Bucket, r: Run)
  {
    && (!r.Idle? ==> r.start <= now && r.last == LastSealable(r.start, c.settle))
    && match r
       case Sealing(_, last, hour, prev, retain) =>
         && (hour <= last ==> AtHour(c, b, hour, prev, retain))
         && (last < hour ==> AllSealed(b, last))
       case Ready(_, last, hour, body, until) => hour <= last && SignedFor(c, b, hour, body, until)
       case Taken(_, last, hour, until) =>
         hour <= last && HasObjects(b.objects) && hour in b.seals && until == UntilOf(b.objects, First(b.objects), hour)
       case Finished(_, last) => AllSealed(b, last)
       case _ => true
  }

  ghost predicate Inv(c: Setting, s: State)
  {
    && (s.bucket.objects.Keys != {} ==> HasObjects(s.bucket.objects))
    && Chain(c, s.now, s.bucket)
    && forall i :: i in s.runs ==> RunOk(c, s.now, s.bucket, s.runs[i])
  }

  // ----- the writer and the clock

  /** The objects of two moments are the same up to an hour. */
  ghost predicate Same(a: map<int, seq<Entry>>, b: map<int, seq<Entry>>, upTo: int)
  {
    forall h :: h <= upTo ==> (h in a <==> h in b) && (h in a ==> a[h] == b[h])
  }

  lemma SameFirst(a: map<int, seq<Entry>>, b: map<int, seq<Entry>>, upTo: int)
    requires HasObjects(a) && (b.Keys != {} ==> HasObjects(b)) && Same(a, b, upTo) && First(a) <= upTo
    ensures HasObjects(b) && First(b) == First(a) && b[First(a)] == a[First(a)]
  {
    assert First(a) in b;
    assert First(b) in b;
  }

  lemma {:induction false} SameUntil(a: map<int, seq<Entry>>, b: map<int, seq<Entry>>, upTo: int, first: int, hour: int)
    requires Same(a, b, upTo) && hour <= upTo
    ensures ObjectsOf(a, hour) == ObjectsOf(b, hour)
    ensures UntilOf(a, first, hour) == UntilOf(b, first, hour)
    decreases hour - first
  {
    if first < hour { SameUntil(a, b, upTo, first, hour - 1); }
  }

  lemma OutsideKeepsChain(c: Setting, s: State, t: State)
    requires Inv(c, s) && Outside(c, s, t)
    ensures Chain(c, t.now, t.bucket)
  {
    hide HeldBy, UntilOf, NewSeal, HourOf;
    var upTo := LastSealable(s.now, c.settle);
    Later(s.now, t.now, c.settle);
    if t.bucket.seals != map[] {
      SameFirst(s.bucket.objects, t.bucket.objects, upTo);
      var first := First(s.bucket.objects);
      forall h | h in t.bucket.seals ensures Linked(c, t.bucket, first, h) {
        assert Linked(c, s.bucket, first, h);
        SameUntil(s.bucket.objects, t.bucket.objects, upTo, first, h);
      }
    }
  }

  lemma Later(a: int, b: int, settle: nat)
    requires a <= b
    ensures LastSealable(a, settle) <= LastSealable(b, settle)
  {
    Monotonic(a - settle, b - settle);
  }

  lemma OutsideKeepsSealed(a: Bucket, b: Bucket, upTo: int, last: int)
    requires AllSealed(a, last) && last <= upTo && a.seals == b.seals && Same(a.objects, b.objects, upTo)
    requires a.objects.Keys != {} ==> HasObjects(a.objects)
    ensures AllSealed(b, last)
  {
    forall g | HasObjects(b.objects) && First(b.objects) <= g <= last ensures g in b.seals {
      assert First(b.objects) in a.objects;
      SameFirst(b.objects, a.objects, upTo);
    }
  }

  lemma OutsideKeepsAtHour(c: Setting, a: Bucket, b: Bucket, upTo: int, hour: int, prev: string, retain: nat)
    requires AtHour(c, a, hour, prev, retain) && hour <= upTo
    requires a.seals == b.seals && Same(a.objects, b.objects, upTo) && (b.objects.Keys != {} ==> HasObjects(b.objects))
    ensures AtHour(c, b, hour, prev, retain)
  {
    hide HeldBy, UntilOf;
    SameFirst(a.objects, b.objects, upTo);
    SameUntil(a.objects, b.objects, upTo, First(a.objects), hour - 1);
  }

  lemma OutsideKeepsSigned(c: Setting, a: Bucket, b: Bucket, upTo: int, hour: int, body: Body, until: nat)
    requires SignedFor(c, a, hour, body, until) && hour <= upTo
    requires a.seals == b.seals && Same(a.objects, b.objects, upTo) && (b.objects.Keys != {} ==> HasObjects(b.objects))
    ensures SignedFor(c, b, hour, body, until)
  {
    hide HeldBy, UntilOf, NewSeal;
    SameFirst(a.objects, b.objects, upTo);
    SameUntil(a.objects, b.objects, upTo, First(a.objects), hour);
  }

  lemma OutsideKeepsRun(c: Setting, s: State, t: State, r: Run)
    requires Outside(c, s, t) && RunOk(c, s.now, s.bucket, r) && Chain(c, s.now, s.bucket)
    requires s.bucket.objects.Keys != {} ==> HasObjects(s.bucket.objects)
    ensures RunOk(c, t.now, t.bucket, r)
  {
    hide HeldBy, UntilOf, NewSeal, HourOf, AtHour, SignedFor, AllSealed;
    var upTo := LastSealable(s.now, c.settle);
    assert Same(s.bucket.objects, t.bucket.objects, upTo);
    if !r.Idle? {
      Later(r.start, s.now, c.settle);
      hide LastSealable;
      match r
      case Sealing(_, last, hour, prev, retain) =>
        if hour <= last {
          OutsideKeepsAtHour(c, s.bucket, t.bucket, upTo, hour, prev, retain);
        } else {
          OutsideKeepsSealed(s.bucket, t.bucket, upTo, last);
        }
      case Ready(_, last, hour, body, until) => OutsideKeepsSigned(c, s.bucket, t.bucket, upTo, hour, body, until);
      case Taken(_, last, hour, until) =>
        SameFirst(s.bucket.objects, t.bucket.objects, upTo);
        SameUntil(s.bucket.objects, t.bucket.objects, upTo, First(s.bucket.objects), hour);
      case Finished(_, last) => OutsideKeepsSealed(s.bucket, t.bucket, upTo, last);
      case _ =>
    }
  }

  // ----- a notary's own steps

  /** After any seal of the chain a run stands at the hour that follows it. */
  lemma AfterASeal(c: Setting, now: int, b: Bucket, tail: int, last: int)
    requires Chain(c, now, b) && tail in b.seals
    ensures AtHour(c, b, tail + 1, c.hash(b.seals[tail].body), b.seals[tail].retain)
    ensures last <= tail ==> AllSealed(b, last)
  {
    hide HeldBy, UntilOf, States, LastSealable;
  }

  lemma TailIsAtHour(c: Setting, s: State, r: Run, next: Run, tail: int)
    requires Chain(c, s.now, s.bucket) && RunOk(c, s.now, s.bucket, r) && FindTail(c, s, r, next, tail)
    ensures RunOk(c, s.now, s.bucket, next)
  {
    hide Chain, LastSealable, ParseSeal, AtHour, AllSealed;
    AfterASeal(c, s.now, s.bucket, tail, r.last);
  }

  lemma FirstIsAtHour(c: Setting, s: State, r: Run, next: Run)
    requires Chain(c, s.now, s.bucket) && RunOk(c, s.now, s.bucket, r) && FindFirst(c, s, r, next)
    ensures RunOk(c, s.now, s.bucket, next)
  {
    hide HeldBy, UntilOf, NewSeal, HourOf, LastSealable, States;
    if next.Sealing? {
      var first := First(s.bucket.objects);
      assert first - 1 !in s.bucket.seals;
    }
  }

  lemma SignIsSigned(c: Setting, s: State, r: Run, next: Run, at: int, signature: nat)
    requires RunOk(c, s.now, s.bucket, r) && Sign(c, s, r, next, at, signature)
    ensures RunOk(c, s.now, s.bucket, next)
  {
    hide HeldBy, HourOf, NewSeal, LastSealable;
    Later(r.start, at, c.settle);
    if next.Ready? {
      StatementIsMade(c, s.bucket, r, at, signature);
    }
  }

  lemma StatementIsMade(c: Setting, b: Bucket, r: Run, at: int, signature: nat)
    requires r.Sealing? && AtHour(c, b, r.hour, r.prev, r.retain) && r.hour <= LastSealable(at, c.settle)
    requires HeldBy(ObjectsOf(b.objects, r.hour), true).problems == 0
    ensures var held := HeldBy(ObjectsOf(b.objects, r.hour), true);
            SignedFor(c, b, r.hour, Signed(NewSeal(c.profile, c.tenant, r.hour, held, r.prev, at), signature),
                    if held.retain == 0 then r.retain else held.retain)
  {
    hide HeldBy, LastSealable;
    SealableHasEnded(r.hour, at, c.settle);
  }

  lemma AdoptIsAtHour(c: Setting, s: State, r: Run, next: Run)
    requires Chain(c, s.now, s.bucket) && RunOk(c, s.now, s.bucket, r) && Adopt(c, s, r, next)
    ensures RunOk(c, s.now, s.bucket, next)
  {
    AfterASeal(c, s.now, s.bucket, r.hour, r.last);
    assert Linked(c, s.bucket, First(s.bucket.objects), r.hour);
    hide Chain, LastSealable, AtHour, AllSealed;
  }

  /** Where an hour of the chain is free, nothing after it is sealed. */
  lemma NothingAfter(c: Setting, now: int, b: Bucket, hour: int)
    requires Chain(c, now, b) && HasObjects(b.objects) && First(b.objects) <= hour && hour !in b.seals
    ensures forall h :: h in b.seals ==> h < hour
  {
    hide States, UntilOf, LastSealable;
  }

  lemma ExtendSpan(seals: map<int, Stored>, first: int, last: int, hour: int, x: Stored)
    requires seals != map[] ==> Spans(seals, first, last)
    requires first <= hour <= last && (forall g :: first <= g < hour ==> g in seals)
    requires forall h :: h in seals ==> h < hour
    ensures Spans(seals[hour := x], first, last)
  {
  }

  lemma ExtendLink(c: Setting, b: Bucket, first: int, hour: int, body: Body, until: nat, h: int)
    requires forall g :: g in b.seals ==> g < hour
    requires h == hour || (h in b.seals && Linked(c, b, first, h))
    requires States(c, b.objects, hour, PrevOf(c, b.seals, hour), body) && until == UntilOf(b.objects, first, hour)
    ensures Linked(c, b.(seals := b.seals[hour := Stored(body, until)]), first, h)
  {
    hide States, UntilOf;
    var seals := b.seals[hour := Stored(body, until)];
    assert PrevOf(c, seals, h) == PrevOf(c, b.seals, h);
  }

  /** The next hour's seal extends the chain. */
  lemma ExtendChain(c: Setting, now: int, b: Bucket, hour: int, body: Body, until: nat)
    requires Chain(c, now, b) && SignedFor(c, b, hour, body, until)
    requires hour !in b.seals && hour <= LastSealable(now, c.settle)
    ensures Chain(c, now, b.(seals := b.seals[hour := Stored(body, until)]))
  {
    hide States, UntilOf, LastSealable, Spans, Linked;
    var first := First(b.objects);
    NothingAfter(c, now, b, hour);
    ExtendSpan(b.seals, first, LastSealable(now, c.settle), hour, Stored(body, until));
    var b' := b.(seals := b.seals[hour := Stored(body, until)]);
    forall h | h in b'.seals ensures Linked(c, b', first, h) {
      ExtendLink(c, b, first, hour, body, until, h);
    }
  }

  lemma PutKeepsChain(c: Setting, s: State, t: State, r: Run, next: Run)
    requires Chain(c, s.now, s.bucket) && RunOk(c, s.now, s.bucket, r) && Put(c, s, t, r, next) && t.now == s.now
    ensures Chain(c, t.now, t.bucket) && RunOk(c, t.now, t.bucket, next)
    ensures HasObjects(s.bucket.objects) && First(s.bucket.objects) <= r.hour
  {
    hide Chain, LastSealable, States, UntilOf, AtHour, AllSealed;
    if r.hour !in s.bucket.seals {
      Later(r.start, s.now, c.settle);
      ExtendChain(c, s.now, s.bucket, r.hour, r.body, r.until);
      AfterASeal(c, t.now, t.bucket, r.hour, r.last);
    }
  }

  /** A seal put where none was leaves every other run where it stood. */
  lemma NewSealKeepsRun(c: Setting, now: int, a: Bucket, b: Bucket, hour: int, o: Run)
    requires HasObjects(a.objects) && First(a.objects) <= hour && hour !in a.seals
    requires b.objects == a.objects && b.seals.Keys == a.seals.Keys + {hour}
    requires forall h :: h in a.seals ==> b.seals[h] == a.seals[h]
    requires RunOk(c, now, a, o)
    ensures RunOk(c, now, b, o)
  {
    hide HeldBy, UntilOf, NewSeal, States, LastSealable;
    match o
    case Sealing(_, last, h, _, _) =>
      if h <= last { PrevIsKept(c, a, b, hour, h); }
    case Ready(_, _, h, _, _) => PrevIsKept(c, a, b, hour, h);
    case _ =>
  }

  lemma PrevIsKept(c: Setting, a: Bucket, b: Bucket, hour: int, h: int)
    requires hour !in a.seals && b.seals.Keys == a.seals.Keys + {hour}
    requires forall g :: g in a.seals ==> b.seals[g] == a.seals[g]
    ensures h - 1 != hour ==> PrevOf(c, b.seals, h) == PrevOf(c, a.seals, h)
  {
  }

  lemma NotaryKeeps(c: Setting, s: State, t: State, i: nat)
    requires Inv(c, s) && NotaryStep(c, s, t, i)
    ensures Inv(c, t)
  {
    hide HeldBy, UntilOf, NewSeal, HourOf, Chain, RunOk, FindTail, FindFirst, Sign, Adopt, LastSealable;
    var r, next := s.runs[i], t.runs[i];
    if Put(c, s, t, r, next) {
      PutKeepsChain(c, s, t, r, next);
      forall j | j in t.runs ensures RunOk(c, t.now, t.bucket, t.runs[j]) {
        if j != i && r.hour !in s.bucket.seals { NewSealKeepsRun(c, s.now, s.bucket, t.bucket, r.hour, s.runs[j]); }
      }
    } else {
      hide Put;
      StepKeepsRun(c, s, t, r, next);
    }
  }

  lemma StepKeepsRun(c: Setting, s: State, t: State, r: Run, next: Run)
    requires Inv(c, s) && RunOk(c, s.now, s.bucket, r)
    requires || next.Idle? || Begin(c, s, r, next)
             || (exists tail :: FindTail(c, s, r, next, tail)) || FindFirst(c, s, r, next)
             || (exists at, signature :: Sign(c, s, r, next, at, signature)) || Adopt(c, s, r, next) || Finish(r, next)
    ensures RunOk(c, s.now, s.bucket, next)
  {
    hide HeldBy, UntilOf, NewSeal, HourOf, Chain, FindTail, FindFirst, Sign, Adopt, LastSealable, AtHour, SignedFor;
    if tail :| FindTail(c, s, r, next, tail) {
      TailIsAtHour(c, s, r, next, tail);
    } else if FindFirst(c, s, r, next) {
      FirstIsAtHour(c, s, r, next);
    } else if at, signature :| Sign(c, s, r, next, at, signature) {
      SignIsSigned(c, s, r, next, at, signature);
    } else if Adopt(c, s, r, next) {
      AdoptIsAtHour(c, s, r, next);
    }
  }

  lemma StepKeeps(c: Setting, s: State, t: State)
    requires Inv(c, s) && Step(c, s, t)
    ensures Inv(c, t)
  {
    hide Chain, RunOk, NotaryStep, LastSealable, HasObjects;
    if Outside(c, s, t) {
      OutsideKeepsChain(c, s, t);
      forall i | i in t.runs ensures RunOk(c, t.now, t.bucket, t.runs[i]) {
        OutsideKeepsRun(c, s, t, s.runs[i]);
      }
    } else {
      var i :| NotaryStep(c, s, t, i);
      NotaryKeeps(c, s, t, i);
    }
  }

  /** Over every run, whatever the interleaving, every state keeps the chain. */
  lemma {:induction false} EveryStateKeeps(c: Setting, states: seq<State>, n: nat)
    requires IsRun(c, states) && n < |states|
    ensures Inv(c, states[n])
    decreases n
  {
    if n > 0 {
      EveryStateKeeps(c, states, n - 1);
      StepKeeps(c, states[n - 1], states[n]);
    }
  }

  /** A run of hours without a gap from that of the first object, each naming
      the hash of the bytes stored for the hour before, and the first none. */
  ghost predicate IsChain(hash: Hasher, b: Bucket)
  {
    forall h :: h in b.seals ==>
      && HasObjects(b.objects)
      && First(b.objects) <= h
      && (forall g :: First(b.objects) <= g <= h ==> g in b.seals)
      && b.seals[h].body.Signed?
      && b.seals[h].body.seal.prev == (if h == First(b.objects) then "" else hash(b.seals[h - 1].body))
  }

  lemma ChainMeans(c: Setting, now: int, b: Bucket)
    requires Chain(c, now, b)
    ensures IsChain(c.hash, b)
  {
    hide LastSealable, Linked;
    forall h | h in b.seals
      ensures b.seals[h].body.Signed? && b.seals[h].body.seal.prev == PrevOf(c, b.seals, h)
    {
      LinkMeans(c, b, First(b.objects), h);
    }
  }

  lemma LinkMeans(c: Setting, b: Bucket, first: int, h: int)
    requires h in b.seals && Linked(c, b, first, h)
    ensures b.seals[h].body.Signed? && b.seals[h].body.seal.prev == PrevOf(c, b.seals, h)
  {
    hide HeldBy, UntilOf;
  }

  /** Over every run, in every state, the tenant's seals are a chain. */
  lemma SealsAreAChain(c: Setting, states: seq<State>, n: nat)
    requires IsRun(c, states) && n < |states|
    ensures IsChain(c.hash, states[n].bucket)
  {
    hide Chain, IsChain;
    EveryStateKeeps(c, states, n);
    ChainMeans(c, states[n].now, states[n].bucket);
  }

  /** Nothing that was sealed changes, over any part of any run. */
  lemma {:induction false} SealsAreForever(c: Setting, states: seq<State>, m: nat, n: nat, hour: int)
    requires IsRun(c, states) && m <= n < |states| && hour in states[m].bucket.seals
    ensures hour in states[n].bucket.seals && states[n].bucket.seals[hour] == states[m].bucket.seals[hour]
    decreases n - m
  {
    if m < n {
      assert Step(c, states[m], states[m + 1]);
      SealsAreForever(c, states, m + 1, n, hour);
    }
  }
}
