/** Runs of holds placed and released while writers add objects: what is under a
    hold that is on stays held, and when it does not. A writer sets the hold on
    what it puts by a list of the holds that it read some time before. */
module HoldProtocol {
  import opened Options
  import opened Lex
  import opened Text
  import opened Layout
  import opened Hold

  /** An object is under a profile and a tenant. */
  function ObjectKey(profile: string, tenant: string, rest: string): string
  {
    TenantPrefix(profile, tenant) + rest
  }

  /** The archive, and the list each writer last read. */
  datatype World = World(store: State, lists: map<int, seq<Record>>)

  datatype Event =
    | Placing(r: Record, now: int)
    | Releasing(id: string, who: string, now: int)
    | Refreshing(writer: int, list: seq<Record>)
    | Writing(writer: int, profile: string, tenant: string, rest: string)

  /** A hold that is on covers a profile and tenant. */
  ghost predicate Covered(records: Records, profile: string, tenant: string)
  {
    exists id :: IsActive(records, id) && Covers(Get(records, id).value, profile, tenant)
  }

  /** A put of a new object, with the hold set or not. */
  function AfterWrite(s: State, key: string, hold: bool): State
  {
    s.(objects := s.objects + {key}, held := if hold then s.held + {key} else s.held)
  }

  /** A step of the world. A writer reads the holds once before it puts anything;
      a reading that fails is no step. */
  ghost predicate Step(s: World, e: Event, t: World)
  {
    match e
    case Placing(r, now) =>
      && CanPlace(s.store.records, r) && r.releasedAt.None?
      && t == s.(store := AfterPlace(s.store, r, now))
    case Releasing(id, who, now) =>
      && !IsBlank(who) && IsActive(s.store.records, id)
      && t == s.(store := AfterRelease(s.store, Get(s.store.records, id).value, who, now))
    case Refreshing(writer, list) =>
      IsListOf(list, s.store.records) && t == s.(lists := s.lists[writer := list])
    case Writing(writer, profile, tenant, rest) =>
      var key := ObjectKey(profile, tenant, rest);
      && KeyComponent(profile) && KeyComponent(tenant) && key !in s.store.objects && writer in s.lists
      && t == s.(store := AfterWrite(s.store, key, ListCovers(s.lists[writer], profile, tenant)))
  }

  ghost predicate Scoped(r: Record)
  {
    KeyComponent(r.profile) && (r.tenant == "" || KeyComponent(r.tenant))
  }

  ghost predicate Inv(s: State)
  {
    && Consistent(s.records) && s.held <= s.objects
    && forall k :: k in s.records ==> Scoped(s.records[k])
  }

  /** A hold that is on is over this object. */
  ghost predicate Over(records: Records, id: string, key: string)
  {
    IsActive(records, id) && HasPrefix(key, PrefixOf(Get(records, id).value))
  }

  /** Every object under a hold that is on carries the legal hold. */
  ghost predicate Protected(s: State)
  {
    forall id, key :: key in s.objects && Over(s.records, id, key) ==> key in s.held
  }

  // ----- scopes are prefixes

  lemma SameFirstPart(p: string, q: string, x: string)
    requires NoSlash(p) && NoSlash(q)
    ensures HasPrefix(p + "/" + x, q + "/") <==> p == q
  {
    var s := p + "/" + x;
    if p == q { assert s[..|q| + 1] == q + "/"; }
    if HasPrefix(s, q + "/") {
      var y := s[|q| + 1..];
      assert s == q + "/" + y;
      SplitCons(p, x);
      SplitCons(q, y);
      assert Split(s)[0] == p && Split(s)[0] == q;
    }
  }

  lemma UnderCommon(a: string, x: string, y: string)
    ensures HasPrefix(a + x, a + y) <==> HasPrefix(x, y)
  {
    if |y| <= |x| {
      assert (a + x)[..|a + y|] == a + x[..|y|];
      assert a + x[..|y|] == a + y ==> (a + x[..|y|])[|a|..] == (a + y)[|a|..];
    }
  }

  /** An object is under a hold's prefix exactly when the hold covers its profile
      and tenant: the sweep and the writer agree on what is held. */
  lemma CoversIsPrefix(r: Record, profile: string, tenant: string, rest: string)
    requires Scoped(r) && KeyComponent(profile) && KeyComponent(tenant)
    ensures HasPrefix(ObjectKey(profile, tenant, rest), PrefixOf(r)) <==> Covers(r, profile, tenant)
  {
    hide HasPrefix;
    var inner := tenant + "/" + rest;
    var outer := profile + "/" + inner;
    assert ObjectKey(profile, tenant, rest) == RECORDS + outer;
    SameFirstPart(profile, r.profile, inner);
    if r.tenant == "" {
      assert PrefixOf(r) == RECORDS + (r.profile + "/");
      UnderCommon(RECORDS, outer, r.profile + "/");
    } else {
      var scope := r.profile + "/" + (r.tenant + "/");
      assert PrefixOf(r) == RECORDS + scope;
      UnderCommon(RECORDS, outer, scope);
      if profile == r.profile {
        assert outer == (profile + "/") + inner && scope == (profile + "/") + (r.tenant + "/");
        UnderCommon(profile + "/", inner, r.tenant + "/");
        SameFirstPart(tenant, r.tenant, rest);
      } else {
        Shorter(outer, r.profile + "/", r.tenant + "/");
        assert scope == (r.profile + "/") + (r.tenant + "/");
      }
    }
  }

  lemma Shorter(s: string, a: string, b: string)
    ensures HasPrefix(s, a + b) ==> HasPrefix(s, a)
  {
    if HasPrefix(s, a + b) { assert s[..|a|] == s[..|a + b|][..|a|] == a; }
  }

  // ----- the records

  /** A record added under a key of its own leaves every other hold as it was. */
  lemma OtherHoldsStay(records: Records, key: string, r: Record, id: string)
    requires (key == PlacedKey(r.id) || key == ReleasedKey(r.id)) && id != r.id
    ensures Get(records[key := r], id) == Get(records, id)
    ensures IsActive(records[key := r], id) <==> IsActive(records, id)
  {
    hide PlacedKey, ReleasedKey, SplitKey;
    KeysTell(id);
    KeysTell(r.id);
  }

  lemma PlacedIsOn(records: Records, r: Record)
    requires Consistent(records) && Get(records, r.id).None?
    ensures Get(records[PlacedKey(r.id) := r], r.id) == Some(r)
    ensures IsActive(records[PlacedKey(r.id) := r], r.id) <==> r.releasedAt.None?
    ensures Consistent(records[PlacedKey(r.id) := r]) <==> r.releasedAt.None?
  {
    hide SplitKey;
    var more := records[PlacedKey(r.id) := r];
    KeysTell(r.id);
    RecordAt(records, r.id);
    hide PlacedKey, ReleasedKey;
    assert more[PlacedKey(r.id)] == r;
    if r.releasedAt.None? { StaysConsistent(records, PlacedKey(r.id), r); }
  }

  lemma StaysConsistent(records: Records, key: string, r: Record)
    requires Consistent(records) && key !in records
    requires || (key == PlacedKey(r.id) && r.releasedAt.None?)
             || (key == ReleasedKey(r.id) && r.releasedAt.Some? && PlacedKey(r.id) in records
                 && r == records[PlacedKey(r.id)].(releasedBy := r.releasedBy, releasedAt := r.releasedAt))
    ensures Consistent(records[key := r])
  {
    hide PlacedKey, ReleasedKey;
  }

  lemma ReleasedIsOff(records: Records, id: string, who: string, now: int)
    requires Consistent(records) && IsActive(records, id)
    ensures var r := Get(records, id).value;
            var more := records[ReleasedKey(id) := r.(releasedAt := Some(now), releasedBy := who)];
            r.id == id && !IsActive(more, id) && Consistent(more)
  {
    hide SplitKey;
    var r := Get(records, id).value;
    var off := r.(releasedAt := Some(now), releasedBy := who);
    KeysTell(id);
    RecordAt(records, id);
    ActiveByKeys(records, id);
    hide PlacedKey, ReleasedKey;
    StaysConsistent(records, ReleasedKey(id), off);
  }

  lemma StepKeepsRecords(s: World, e: Event, t: World)
    requires Inv(s.store) && Step(s, e, t)
    ensures Inv(t.store)
  {
    hide PlacedKey, ReleasedKey, KeyComponent, IsBlank, ObjectKey, IsListOf, ListCovers;
    match e
    case Placing(r, now) => PlacedIsOn(s.store.records, r.(placedAt := now));
    case Releasing(id, who, now) =>
      ReleasedIsOff(s.store.records, id, who, now);
      ActiveByKeys(s.store.records, id);
    case Refreshing(writer, list) =>
    case Writing(writer, profile, tenant, rest) =>
  }

  // ----- what is held

  lemma ScopeOf(s: State, id: string)
    requires Inv(s) && IsActive(s.records, id)
    ensures Scoped(Get(s.records, id).value) && Get(s.records, id).value.id == id
  {
    hide PlacedKey, ReleasedKey, KeyComponent;
    ActiveByKeys(s.records, id);
    RecordAt(s.records, id);
  }

  lemma PlaceProtects(s: State, r: Record, now: int)
    requires Inv(s) && Protected(s) && CanPlace(s.records, r) && r.releasedAt.None?
    ensures Protected(AfterPlace(s, r, now))
  {
    hide PlacedKey, ReleasedKey, KeyComponent, IsBlank, HasPrefix, PrefixOf;
    var t := AfterPlace(s, r, now);
    var placed := r.(placedAt := now);
    PlacedIsOn(s.records, placed);
    SameScope(r, now);
    forall id, key | key in t.objects && Over(t.records, id, key) ensures key in t.held {
      if id != r.id {
        OtherHoldsStay(s.records, PlacedKey(r.id), placed, id);
        assert Over(s.records, id, key);
      }
    }
  }

  lemma SameScope(r: Record, now: int)
    ensures PrefixOf(r.(placedAt := now)) == PrefixOf(r)
  {
  }

  lemma CoveredIsOver(s: State, profile: string, tenant: string, rest: string)
    requires Inv(s) && KeyComponent(profile) && KeyComponent(tenant)
    ensures Covered(s.records, profile, tenant) <==> exists id :: Over(s.records, id, ObjectKey(profile, tenant, rest))
  {
    hide PlacedKey, ReleasedKey, KeyComponent, HasPrefix, PrefixOf, ObjectKey, Covers, Get;
    forall id | IsActive(s.records, id)
      ensures Over(s.records, id, ObjectKey(profile, tenant, rest)) <==>
              Covers(Get(s.records, id).value, profile, tenant)
    {
      ScopeOf(s, id);
      CoversIsPrefix(Get(s.records, id).value, profile, tenant, rest);
    }
    if id :| Over(s.records, id, ObjectKey(profile, tenant, rest)) { assert IsActive(s.records, id); }
    if id :| IsActive(s.records, id) && Covers(Get(s.records, id).value, profile, tenant) {
      assert Over(s.records, id, ObjectKey(profile, tenant, rest));
    }
  }

  /** A put keeps every object under a hold that is on held exactly when the hold
      is set on it, if one that is on covers it. */
  lemma WriteProtects(s: State, profile: string, tenant: string, rest: string, hold: bool)
    requires Inv(s) && Protected(s) && KeyComponent(profile) && KeyComponent(tenant)
    requires ObjectKey(profile, tenant, rest) !in s.objects
    ensures Protected(AfterWrite(s, ObjectKey(profile, tenant, rest), hold)) <==>
            (Covered(s.records, profile, tenant) ==> hold)
  {
    hide KeyComponent, ObjectKey, Covered, Over;
    var key := ObjectKey(profile, tenant, rest);
    var t := AfterWrite(s, key, hold);
    CoveredIsOver(s, profile, tenant, rest);
    if !hold && Covered(s.records, profile, tenant) {
      var id :| Over(s.records, id, key);
      assert key in t.objects && Over(t.records, id, key) && key !in t.held;
    }
  }

  /** A put that misses a hold: one that is on covers it, and the writer's list
      has none that does. */
  ghost predicate Misses(s: World, e: Event)
  {
    && e.Writing? && e.writer in s.lists
    && Covered(s.store.records, e.profile, e.tenant) && !ListCovers(s.lists[e.writer], e.profile, e.tenant)
  }

  /** A list of the holds as they stand misses none. */
  lemma FreshListCovers(list: seq<Record>, records: Records, profile: string, tenant: string)
    requires Consistent(records) && IsListOf(list, records)
    ensures ListCovers(list, profile, tenant) <==> Covered(records, profile, tenant)
  {
    hide Consistent, Get, Covers;
    if id :| IsActive(records, id) && Covers(Get(records, id).value, profile, tenant) {
      GotIsOwn(records, id);
      assert Get(records, id).value in list;
    }
    if r :| r in list && Covers(r, profile, tenant) {
      assert IsActive(records, r.id) && Covers(Get(records, r.id).value, profile, tenant);
    }
  }

  /** No object under this hold is under another that is on. */
  ghost predicate Alone(s: State, id: string)
    requires IsActive(s.records, id)
  {
    forall other, key :: key in s.objects && other != id && Over(s.records, id, key) ==> !Over(s.records, other, key)
  }

  /** A release keeps every object under a hold that is still on exactly when no
      object was under both: the sweep clears what it finds, whoever holds it. */
  lemma ReleaseProtects(s: State, id: string, who: string, now: int)
    requires Inv(s) && Protected(s) && IsActive(s.records, id)
    ensures Protected(AfterRelease(s, Get(s.records, id).value, who, now)) <==> Alone(s, id)
  {
    hide PlacedKey, ReleasedKey, HasPrefix, PrefixOf, Get;
    var r := Get(s.records, id).value;
    var t := AfterRelease(s, r, who, now);
    ReleasedIsOff(s.records, id, who, now);
    var off := r.(releasedAt := Some(now), releasedBy := who);
    ScopeOf(s, id);
    forall other, key ensures Over(t.records, other, key) <==> other != id && Over(s.records, other, key) {
      if other != id { OtherHoldsStay(s.records, ReleasedKey(id), off, other); }
    }
    assert t.objects == s.objects;
    forall key | key in s.objects ensures key in t.held <==> key in s.held && !Over(s.records, id, key) {
    }
    hide AfterRelease, Inv, Over, IsActive;
    if Alone(s, id) {
      forall other, key | key in t.objects && Over(t.records, other, key) ensures key in t.held {
        assert Over(s.records, other, key);
      }
    } else {
      var other, key :| key in s.objects && other != id && Over(s.records, id, key) && Over(s.records, other, key);
      assert Over(t.records, other, key) && key !in t.held;
    }
  }

  /** Two holds have a scope in common. */
  predicate Overlap(a: Record, b: Record)
  {
    a.profile == b.profile && (a.tenant == "" || b.tenant == "" || a.tenant == b.tenant)
  }

  ghost predicate Apart(s: State)
  {
    forall i, j :: i != j && IsActive(s.records, i) && IsActive(s.records, j) ==>
      !Overlap(Get(s.records, i).value, Get(s.records, j).value)
  }

  /** Every object is under a profile and a tenant. */
  ghost predicate IsObject(key: string)
  {
    exists profile, tenant, rest ::
        KeyComponent(profile) && KeyComponent(tenant) && key == ObjectKey(profile, tenant, rest)
  }

  ghost predicate Placeable(s: State)
  {
    forall key :: key in s.objects ==> IsObject(key)
  }

  lemma ApartIsAlone(s: State, id: string)
    requires Inv(s) && Apart(s) && Placeable(s) && IsActive(s.records, id)
    ensures Alone(s, id)
  {
    hide KeyComponent, HasPrefix, PrefixOf, ObjectKey, Get;
    forall other, key | key in s.objects && other != id && Over(s.records, id, key)
      ensures !Over(s.records, other, key)
    {
      if Over(s.records, other, key) {
        assert IsObject(key);
        var profile, tenant, rest :|
            KeyComponent(profile) && KeyComponent(tenant) && key == ObjectKey(profile, tenant, rest);
        ScopeOf(s, id);
        ScopeOf(s, other);
        CoversIsPrefix(Get(s.records, id).value, profile, tenant, rest);
        CoversIsPrefix(Get(s.records, other).value, profile, tenant, rest);
        assert false;
      }
    }
  }

  // ----- every run

  const NOTHING := State({}, {}, map[])

  ghost predicate IsRun(events: seq<Event>, worlds: seq<World>)
  {
    && |worlds| == |events| + 1 && worlds[0] == World(NOTHING, map[])
    && forall i :: 0 <= i < |events| ==> Step(worlds[i], events[i], worlds[i + 1])
  }

  lemma RunStep(events: seq<Event>, worlds: seq<World>, i: nat)
    requires IsRun(events, worlds) && i < |events|
    ensures |worlds| == |events| + 1 && Step(worlds[i], events[i], worlds[i + 1])
  {
    hide Step;
  }

  lemma StepIsPlaceable(s: World, e: Event, t: World)
    requires Placeable(s.store) && Step(s, e, t)
    ensures Placeable(t.store)
  {
    hide KeyComponent, ObjectKey, IsListOf, ListCovers;
    match e
    case Placing(r, now) =>
    case Releasing(id, who, now) =>
    case Refreshing(writer, list) =>
    case Writing(writer, profile, tenant, rest) =>
      assert IsObject(ObjectKey(profile, tenant, rest));
  }

  /** Where holds that are on have no scope in common, a step keeps every object
      under one of them held exactly when it is not a put that misses one. */
  lemma StepProtects(s: World, e: Event, t: World)
    requires Inv(s.store) && Protected(s.store) && Placeable(s.store) && Apart(s.store) && Step(s, e, t)
    ensures Protected(t.store) <==> !Misses(s, e)
  {
    hide Inv, Protected, Placeable, Apart, Covered, ListCovers, AfterPlace, AfterRelease, AfterWrite, IsListOf;
    match e
    case Placing(r, now) => PlaceProtects(s.store, r, now);
    case Releasing(id, who, now) =>
      ApartIsAlone(s.store, id);
      ReleaseProtects(s.store, id, who, now);
    case Refreshing(writer, list) =>
    case Writing(writer, profile, tenant, rest) =>
      WriteProtects(s.store, profile, tenant, rest, ListCovers(s.lists[writer], profile, tenant));
  }

  lemma {:induction false} EveryStateIsSound(events: seq<Event>, worlds: seq<World>, i: nat)
    requires IsRun(events, worlds) && i <= |events|
    ensures Inv(worlds[i].store) && Placeable(worlds[i].store)
  {
    if i > 0 {
      hide Step, Inv, Placeable, IsRun;
      EveryStateIsSound(events, worlds, i - 1);
      RunStep(events, worlds, i - 1);
      StepKeepsRecords(worlds[i - 1], events[i - 1], worlds[i]);
      StepIsPlaceable(worlds[i - 1], events[i - 1], worlds[i]);
    }
  }

  /** In every run in which holds that are on at the same time have no scope in
      common, every object under a hold that is on carries it, in every state up
      to some moment, if and only if no put up to then missed a hold. */
  lemma {:induction false} EveryStateProtects(events: seq<Event>, worlds: seq<World>, n: nat)
    requires IsRun(events, worlds) && n <= |events| && forall j :: 0 <= j < n ==> Apart(worlds[j].store)
    ensures (forall i :: 0 <= i <= n ==> Protected(worlds[i].store)) <==>
            (forall j :: 0 <= j < n ==> !Misses(worlds[j], events[j]))
  {
    if n == 0 {
      assert worlds[0].store == NOTHING;
    } else {
      hide Step, Inv, Protected, Placeable, Apart, Misses, IsRun;
      EveryStateProtects(events, worlds, n - 1);
      EveryStateIsSound(events, worlds, n - 1);
      RunStep(events, worlds, n - 1);
      if Protected(worlds[n - 1].store) {
        StepProtects(worlds[n - 1], events[n - 1], worlds[n]);
      }
    }
  }

  // ----- what a list can miss

  /** A hold that is on after a step, and was placed before it, was on before it
      and says the same. */
  lemma StepKeepsHold(s: World, e: Event, t: World, id: string)
    requires Inv(s.store) && Step(s, e, t) && Get(s.store.records, id).Some?
    ensures Get(t.store.records, id).Some?
    ensures IsActive(t.store.records, id) ==>
            IsActive(s.store.records, id) && Get(t.store.records, id) == Get(s.store.records, id)
  {
    hide PlacedKey, ReleasedKey, KeyComponent, IsBlank, ObjectKey, IsListOf, ListCovers, SplitKey;
    match e
    case Placing(r, now) => OtherHoldsStay(s.store.records, PlacedKey(r.id), r.(placedAt := now), id);
    case Releasing(other, who, now) =>
      ReleasedIsOff(s.store.records, other, who, now);
      var off := Get(s.store.records, other).value.(releasedAt := Some(now), releasedBy := who);
      if id != other { OtherHoldsStay(s.store.records, ReleasedKey(other), off, id); }
      else { KeysTell(id); }
    case Refreshing(writer, list) =>
    case Writing(writer, profile, tenant, rest) =>
  }

  lemma {:induction false} HoldStays(events: seq<Event>, worlds: seq<World>, i: nat, j: nat, id: string)
    requires IsRun(events, worlds) && i <= j <= |events| && Get(worlds[i].store.records, id).Some?
    ensures Get(worlds[j].store.records, id).Some?
    ensures IsActive(worlds[j].store.records, id) ==>
            && IsActive(worlds[i].store.records, id)
            && Get(worlds[j].store.records, id) == Get(worlds[i].store.records, id)
    decreases j
  {
    hide *;
    if i < j {
      RunStep(events, worlds, j - 1);
      HoldStays(events, worlds, i, j - 1, id);
      EveryStateIsSound(events, worlds, j - 1);
      StepKeepsHold(worlds[j - 1], events[j - 1], worlds[j], id);
    }
  }

  /** Every list a writer acts on is one it read in some earlier state. */
  lemma {:induction false} ListWasRead(events: seq<Event>, worlds: seq<World>, j: nat, writer: int) returns (i: nat)
    requires IsRun(events, worlds) && j <= |events| && writer in worlds[j].lists
    ensures i <= j && IsListOf(worlds[j].lists[writer], worlds[i].store.records)
  {
    hide IsListOf, CanPlace, IsBlank, KeyComponent, ListCovers;
    var e := events[j - 1];
    assert Step(worlds[j - 1], e, worlds[j]);
    if e.Refreshing? && e.writer == writer {
      i := j - 1;
    } else {
      i := ListWasRead(events, worlds, j - 1, writer);
    }
  }

  /** A put can miss only holds that were placed after its writer last read the
      list: one that was there then is in it, and is respected. */
  lemma MissedHoldIsNew(events: seq<Event>, worlds: seq<World>, i: nat, j: nat, id: string)
    requires IsRun(events, worlds) && i <= j < |events| && Misses(worlds[j], events[j])
    requires IsListOf(worlds[j].lists[events[j].writer], worlds[i].store.records)
    requires IsActive(worlds[j].store.records, id)
    requires Covers(Get(worlds[j].store.records, id).value, events[j].profile, events[j].tenant)
    ensures Get(worlds[i].store.records, id).None?
  {
    hide Step, Covers, Inv;
    if Get(worlds[i].store.records, id).Some? {
      HoldStays(events, worlds, i, j, id);
      EveryStateIsSound(events, worlds, i);
      OwnRecord(worlds[i].store, id);
    }
  }

  lemma OwnRecord(s: State, id: string)
    requires Inv(s)
    ensures Get(s.records, id).Some? ==> Get(s.records, id).value.id == id
  {
    hide Get;
    GotIsOwn(s.records, id);
  }

  /** An empty archive, a writer that has read the holds, then a hold placed and
      an object put in its scope: whatever the hold is, the object is deletable
      under it until somebody sweeps again. */
  lemma StaleListUncovers(r: Record, profile: string, tenant: string, rest: string)
    requires CanPlace(map[], r) && r.releasedAt.None? && Covers(r, profile, tenant)
    requires KeyComponent(profile) && KeyComponent(tenant)
    ensures exists events: seq<Event>, worlds: seq<World> ::
              && IsRun(events, worlds) && |events| == 3 && Protected(worlds[2].store) && !Protected(worlds[3].store)
              && events[1] == Placing(r, 0) && events[2] == Writing(0, profile, tenant, rest)
  {
    hide *;
    var events := [Refreshing(0, []), Placing(r, 0), Writing(0, profile, tenant, rest)];
    StaleWriteMisses(r, profile, tenant, rest);
    StaleSteps(r, profile, tenant, rest);
    ThreeSteps(events, StaleWorlds(r, ObjectKey(profile, tenant, rest)));
  }

  ghost function StaleWorlds(r: Record, key: string): (worlds: seq<World>)
    ensures |worlds| == 4 && worlds[0] == World(NOTHING, map[])
  {
    var list: map<int, seq<Record>> := map[0 := []];
    var placed := AfterPlace(NOTHING, r, 0);
    [World(NOTHING, map[]), World(NOTHING, list), World(placed, list), World(AfterWrite(placed, key, false), list)]
  }

  lemma StaleWriteMisses(r: Record, profile: string, tenant: string, rest: string)
    requires CanPlace(map[], r) && r.releasedAt.None? && Covers(r, profile, tenant)
    requires KeyComponent(profile) && KeyComponent(tenant)
    ensures var worlds := StaleWorlds(r, ObjectKey(profile, tenant, rest));
            Protected(worlds[2].store) && !Protected(worlds[3].store)
  {
    assert Inv(NOTHING) && Protected(NOTHING);
    PlacedIsOver(NOTHING, r, profile, tenant, rest);
    hide Inv, Protected, KeyComponent, IsBlank, ObjectKey, AfterPlace, Covers, Over;
    var placed := AfterPlace(NOTHING, r, 0);
    CoveredIsOver(placed, profile, tenant, rest);
    assert Over(placed.records, r.id, ObjectKey(profile, tenant, rest));
    WriteProtects(placed, profile, tenant, rest, false);
  }

  lemma StaleSteps(r: Record, profile: string, tenant: string, rest: string)
    requires CanPlace(map[], r) && r.releasedAt.None? && KeyComponent(profile) && KeyComponent(tenant)
    ensures var worlds := StaleWorlds(r, ObjectKey(profile, tenant, rest));
            && Step(worlds[0], Refreshing(0, []), worlds[1])
            && Step(worlds[1], Placing(r, 0), worlds[2])
            && Step(worlds[2], Writing(0, profile, tenant, rest), worlds[3])
  {
    assert IsListOf([], NOTHING.records);
    assert !ListCovers([], profile, tenant);
    hide KeyComponent, IsBlank, ObjectKey, IsListOf, ListCovers, CanPlace;
  }

  lemma ThreeSteps(events: seq<Event>, worlds: seq<World>)
    requires |events| == 3 && |worlds| == 4 && worlds[0] == World(NOTHING, map[])
    requires Step(worlds[0], events[0], worlds[1]) && Step(worlds[1], events[1], worlds[2])
    requires Step(worlds[2], events[2], worlds[3])
    ensures IsRun(events, worlds)
  {
    hide Step;
  }

  /** Placed with nothing of its name there, a hold is on and over what is in
      its scope. */
  lemma PlacedIsOver(s: State, r: Record, profile: string, tenant: string, rest: string)
    requires Inv(s) && Protected(s) && CanPlace(s.records, r) && r.releasedAt.None?
    requires Covers(r, profile, tenant) && KeyComponent(profile) && KeyComponent(tenant)
    ensures var t := AfterPlace(s, r, 0);
            Inv(t) && Protected(t) && t.objects == s.objects && Over(t.records, r.id, ObjectKey(profile, tenant, rest))
    ensures forall id :: id != r.id ==>
              var t := AfterPlace(s, r, 0);
              Get(t.records, id) == Get(s.records, id) && (IsActive(t.records, id) <==> IsActive(s.records, id))
  {
    hide PlacedKey, ReleasedKey, KeyComponent, IsBlank, HasPrefix, PrefixOf, ObjectKey, Covers;
    var t := AfterPlace(s, r, 0);
    PlaceProtects(s, r, 0);
    assert Step(World(s, map[]), Placing(r, 0), World(t, map[]));
    StepKeepsRecords(World(s, map[]), Placing(r, 0), World(t, map[]));
    PlacedIsOn(s.records, r.(placedAt := 0));
    SameScope(r, 0);
    CoversIsPrefix(r, profile, tenant, rest);
    forall id | id != r.id
      ensures Get(t.records, id) == Get(s.records, id) && (IsActive(t.records, id) <==> IsActive(s.records, id))
    {
      OtherHoldsStay(s.records, PlacedKey(r.id), r.(placedAt := 0), id);
    }
  }

  /** The states of a release that uncovers: both holds on, then one. */
  ghost function BothOn(a: Record, b: Record, key: string): State
  {
    AfterPlace(AfterPlace(NOTHING.(objects := {key}), a, 0), b, 0)
  }

  /** Any two holds that cover one profile and tenant: place both over an object
      there, take either off, and the object is deletable under a hold that is
      still on. */
  lemma OverlapUncovers(a: Record, b: Record, profile: string, tenant: string, rest: string)
    requires CanPlace(map[], a) && CanPlace(map[], b) && a.id != b.id && a.releasedAt.None? && b.releasedAt.None?
    requires Covers(a, profile, tenant) && Covers(b, profile, tenant) && KeyComponent(profile) && KeyComponent(tenant)
    ensures var s := BothOn(a, b, ObjectKey(profile, tenant, rest));
            && Protected(s) && IsActive(s.records, a.id)
            && !Protected(AfterRelease(s, Get(s.records, a.id).value, "operator", 0))
  {
    var key := ObjectKey(profile, tenant, rest);
    var s0 := NOTHING.(objects := {key});
    assert Inv(s0) && Protected(s0);
    hide Inv, Protected, PlacedKey, ReleasedKey, KeyComponent, IsBlank, HasPrefix;
    hide PrefixOf, ObjectKey, Covers, AfterPlace, AfterRelease;
    PlacedIsOver(s0, a, profile, tenant, rest);
    var s1 := AfterPlace(s0, a, 0);
    assert Get(s1.records, b.id) == Get(s0.records, b.id);
    PlacedIsOver(s1, b, profile, tenant, rest);
    var s2 := BothOn(a, b, key);
    assert s2 == AfterPlace(s1, b, 0);
    assert Get(s2.records, a.id) == Get(s1.records, a.id);
    assert IsActive(s2.records, a.id) <==> IsActive(s1.records, a.id);
    assert Over(s2.records, a.id, key) && Over(s2.records, b.id, key) && key in s2.objects;
    assert !Alone(s2, a.id);
    ReleaseProtects(s2, a.id, "operator", 0);
  }
}
