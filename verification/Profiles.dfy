/** What a composed profile promises of its presets: it is never weaker than any
    of them, keeps what they require and nothing they forbid, and does not
    depend on how they are listed. */
module Profiles {
  import opened Ordering
  import opened Strictness
  import opened Compose
  import Retention

  // ----- at least as strict as every preset

  function Readings(ms: seq<Preset>, get: Preset -> string): (r: seq<string>)
    ensures |r| == |ms| && forall i :: 0 <= i < |ms| ==> r[i] == get(ms[i])
  {
    seq(|ms|, i requires 0 <= i < |ms| => get(ms[i]))
  }

  const DIGEST := (m: Preset) => m.integrity.digest
  const LOCK := (m: Preset) => m.integrity.objectLockMode
  const ANCHOR := (m: Preset) => m.integrity.timestampAnchor
  const HOLD := (m: Preset) => m.integrity.legalHold
  const CLOCK := (m: Preset) => m.integrity.clockSyncEvent
  const CADENCE := (m: Preset) => m.review.cadence

  lemma ReadingsFront(ms: seq<Preset>, get: Preset -> string)
    requires ms != []
    ensures Readings(ms, get)[..|ms| - 1] == Readings(ms[..|ms| - 1], get)
  {
  }

  lemma FoldStep(order: seq<string>, ms: seq<Preset>, get: Preset -> string)
    requires ms != []
    ensures Folded(order, Readings(ms, get)) ==
            Stricter(order, Folded(order, Readings(ms[..|ms| - 1], get)), get(ms[|ms| - 1]))
  {
    hide Stricter;
    ReadingsFront(ms, get);
  }

  /** Each reading of a profile is the fold of its presets' readings. */
  lemma {:induction false} ReadingsFold(ms: seq<Preset>)
    ensures IntegrityOf(ms).digest == Folded(DIGESTS, Readings(ms, DIGEST))
    ensures IntegrityOf(ms).objectLockMode == Folded(LOCKS, Readings(ms, LOCK))
    ensures IntegrityOf(ms).timestampAnchor == Folded(ANCHORS, Readings(ms, ANCHOR))
    ensures IntegrityOf(ms).legalHold == Folded(HOLDS, Readings(ms, HOLD))
    ensures IntegrityOf(ms).clockSyncEvent == Folded(CLOCKS, Readings(ms, CLOCK))
    ensures ReviewOf(ms).cadence == Folded(CADENCES, Readings(ms, CADENCE))
  {
    if ms != [] {
      ReadingsFold(ms[..|ms| - 1]);
      FoldStep(DIGESTS, ms, DIGEST);
      FoldStep(LOCKS, ms, LOCK);
      FoldStep(ANCHORS, ms, ANCHOR);
      FoldStep(HOLDS, ms, HOLD);
      FoldStep(CLOCKS, ms, CLOCK);
      FoldStep(CADENCES, ms, CADENCE);
      hide Stricter, Folded, LockNote;
    }
  }

  lemma AtLeast(order: seq<string>, ms: seq<Preset>, get: Preset -> string, i: nat)
    requires "" !in order && i < |ms|
    ensures Rank(order, get(ms[i])) <= Rank(order, Folded(order, Readings(ms, get)))
  {
    hide Rank, Folded;
    FoldIsStrictest(order, Readings(ms, get));
    assert Readings(ms, get)[i] in Elements(Readings(ms, get));
  }

  /** Whatever the presets say, known readings or not, a profile reads each
      requirement at least as strictly as each of them. */
  lemma NeverWeaker(ms: seq<Preset>, p: Profile, i: nat)
    requires Describes(ms, p) && i < |ms|
    ensures Rank(DIGESTS, ms[i].integrity.digest) <= Rank(DIGESTS, p.integrity.digest)
    ensures Rank(LOCKS, ms[i].integrity.objectLockMode) <= Rank(LOCKS, p.integrity.objectLockMode)
    ensures Rank(ANCHORS, ms[i].integrity.timestampAnchor) <= Rank(ANCHORS, p.integrity.timestampAnchor)
    ensures Rank(HOLDS, ms[i].integrity.legalHold) <= Rank(HOLDS, p.integrity.legalHold)
    ensures Rank(CLOCKS, ms[i].integrity.clockSyncEvent) <= Rank(CLOCKS, p.integrity.clockSyncEvent)
    ensures Rank(CADENCES, ms[i].review.cadence) <= Rank(CADENCES, p.review.cadence)
    ensures forall c :: c in ms[i].identity ==>
            c in p.identity && Strength(ms[i].identity[c]) <= Strength(p.identity[c])
  {
    hide Rank, Folded, IntegrityOf, ReviewOf, Strength, IdentityOf, PipelineOf, Lists, Gathered;
    ReadingsFold(ms);
    AtLeast(DIGESTS, ms, DIGEST, i);
    AtLeast(LOCKS, ms, LOCK, i);
    AtLeast(ANCHORS, ms, ANCHOR, i);
    AtLeast(HOLDS, ms, HOLD, i);
    AtLeast(CLOCKS, ms, CLOCK, i);
    AtLeast(CADENCES, ms, CADENCE, i);
    forall c | c in ms[i].identity ensures c in p.identity && Strength(ms[i].identity[c]) <= Strength(p.identity[c]) {
      IdentityIsStrictest(ms, c);
    }
  }

  /** Of every actor category that some preset treats, and of no other, a
      profile has the strictest treatment among theirs. */
  lemma {:induction false} IdentityIsStrictest(ms: seq<Preset>, c: string)
    ensures c in IdentityOf(ms) <==> exists i :: 0 <= i < |ms| && c in ms[i].identity
    ensures forall i :: 0 <= i < |ms| && c in ms[i].identity ==>
            Strength(ms[i].identity[c]) <= Strength(IdentityOf(ms)[c])
    ensures c in IdentityOf(ms) ==>
            exists i :: 0 <= i < |ms| && c in ms[i].identity && ms[i].identity[c] == IdentityOf(ms)[c]
  {
    if ms != [] {
      var n := |ms| - 1;
      var front := ms[..n];
      IdentityIsStrictest(front, c);
      assert forall i :: 0 <= i < n ==> front[i] == ms[i];
      var a, b := IdentityOf(front), ms[n].identity;
      assert IdentityOf(ms) == StricterIdentity(a, b);
      hide IdentityOf, Strength;
      if c in a {
        var i :| 0 <= i < n && c in front[i].identity && front[i].identity[c] == a[c];
        assert c in ms[i].identity && ms[i].identity[c] == a[c];
      }
      if c in b { assert c in ms[n].identity; }
    }
  }

  // ----- by name

  ghost predicate Treats(ms: seq<Preset>, c: string, t: Treatment)
  {
    exists i :: 0 <= i < |ms| && c in ms[i].identity && ms[i].identity[c] == t
  }

  /** An actor category is omitted if any preset omits it, else a pseudonym if any
      asks one, else scoped if any scopes it, and clear only where every preset
      that names it leaves it clear. */
  lemma IdentityByName(ms: seq<Preset>, c: string)
    requires c in IdentityOf(ms)
    ensures IdentityOf(ms)[c] ==
            if Treats(ms, c, Omit) then Omit
            else if Treats(ms, c, Pseudonym) then Pseudonym
            else if Treats(ms, c, Scoped) then Scoped
            else Clear
  {
    hide IdentityOf;
    IdentityIsStrictest(ms, c);
  }

  ghost predicate Reads(ms: seq<Preset>, get: Preset -> string, v: string)
  {
    exists i :: 0 <= i < |ms| && get(ms[i]) == v
  }

  lemma ReadsIs(ms: seq<Preset>, get: Preset -> string, v: string)
    ensures v in Readings(ms, get) <==> Reads(ms, get, v)
  {
    if i :| 0 <= i < |ms| && get(ms[i]) == v { assert Readings(ms, get)[i] == v; }
    if i :| 0 <= i < |ms| && Readings(ms, get)[i] == v { assert get(ms[i]) == v; }
  }

  lemma ReadByName(order: seq<string>, ms: seq<Preset>, get: Preset -> string, k: nat)
    requires Distinct(order) && k < |order|
    ensures Folded(order, Readings(ms, get)) == order[k] <==>
            Reads(ms, get, order[k]) && forall j :: k < j < |order| ==> !Reads(ms, get, order[j])
  {
    hide Folded, Reads, Readings;
    FoldIsByName(order, Readings(ms, get), k);
    forall v ensures v in Readings(ms, get) <==> Reads(ms, get, v) { ReadsIs(ms, get, v); }
  }

  /** The last reading of an order is the fold's when any preset has it. */
  lemma Strictest1(order: seq<string>, ms: seq<Preset>, get: Preset -> string, z: string)
    requires Distinct(order) && |order| >= 1 && order[|order| - 1] == z
    ensures Folded(order, Readings(ms, get)) == z <==> Reads(ms, get, z)
  {
    hide Folded, Reads;
    ReadByName(order, ms, get, |order| - 1);
  }

  /** The last but one, when any has it and none the last. */
  lemma Strictest2(order: seq<string>, ms: seq<Preset>, get: Preset -> string, y: string, z: string)
    requires Distinct(order) && |order| >= 2 && order[|order| - 2..] == [y, z]
    ensures Folded(order, Readings(ms, get)) == y <==> Reads(ms, get, y) && !Reads(ms, get, z)
  {
    hide Folded, Reads;
    var n := |order| - 2;
    assert order[n] == order[n..][0] == y && order[n + 1] == order[n..][1] == z;
    ReadByName(order, ms, get, n);
  }

  lemma Strictest3(order: seq<string>, ms: seq<Preset>, get: Preset -> string, x: string, y: string, z: string)
    requires Distinct(order) && |order| >= 3 && order[|order| - 3..] == [x, y, z]
    ensures Folded(order, Readings(ms, get)) == x <==> Reads(ms, get, x) && !Reads(ms, get, y) && !Reads(ms, get, z)
  {
    hide Folded, Reads;
    var n := |order| - 3;
    assert order[n] == order[n..][0] == x && order[n + 1] == order[n..][1] == y && order[n + 2] == order[n..][2] == z;
    ReadByName(order, ms, get, n);
  }

  lemma Strictest4(order: seq<string>, ms: seq<Preset>, get: Preset -> string, w: string, x: string, y: string,
                   z: string)
    requires Distinct(order) && order == [w, x, y, z]
    ensures Folded(order, Readings(ms, get)) == w <==>
            Reads(ms, get, w) && !Reads(ms, get, x) && !Reads(ms, get, y) && !Reads(ms, get, z)
  {
    hide Folded, Reads;
    ReadByName(order, ms, get, 0);
    assert order[0] == w && order[1] == x && order[2] == y && order[3] == z;
  }

  lemma OrdersAreDistinct()
    ensures Distinct(DIGESTS) && Distinct(LOCKS) && Distinct(ANCHORS)
    ensures Distinct(HOLDS) && Distinct(CLOCKS) && Distinct(CADENCES)
  {
    assert |DIGESTS[0]| == 11 && |DIGESTS[1]| == 8;
    assert LOCKS[0][0] == 'n' && LOCKS[1][0] == 'g' && LOCKS[2][0] == 'c';
    assert |ANCHORS[0]| == 4 && |ANCHORS[1]| == 11 && |ANCHORS[2]| == 8;
    assert |HOLDS[0]| == 9 && |HOLDS[1]| == 11 && |CLOCKS[0]| == 4 && |CLOCKS[1]| == 5;
    assert CADENCES[0][0] == 'q' && CADENCES[1][0] == 'm' && CADENCES[2][0] == 'w' && CADENCES[3][0] == 'd';
  }

  /** A digest is required if any preset requires it, and recommended if any
      recommends it and none requires it. */
  lemma DigestByName(ms: seq<Preset>)
    ensures IntegrityOf(ms).digest == "required" <==> Reads(ms, DIGEST, "required")
    ensures IntegrityOf(ms).digest == "recommended" <==>
            Reads(ms, DIGEST, "recommended") && !Reads(ms, DIGEST, "required")
  {
    hide IntegrityOf, Folded, Reads, Readings, Distinct;
    OrdersAreDistinct();
    ReadingsFold(ms);
    assert DIGESTS[0..] == ["recommended", "required"];
    Strictest1(DIGESTS, ms, DIGEST, "required");
    Strictest2(DIGESTS, ms, DIGEST, "recommended", "required");
  }

  /** The lock is compliance if any preset demands it, governance if any demands
      that and none compliance, and none only where some says so and none demands
      one. */
  lemma LockByName(ms: seq<Preset>)
    ensures IntegrityOf(ms).objectLockMode == "compliance" <==> Reads(ms, LOCK, "compliance")
    ensures IntegrityOf(ms).objectLockMode == "governance" <==>
            Reads(ms, LOCK, "governance") && !Reads(ms, LOCK, "compliance")
    ensures IntegrityOf(ms).objectLockMode == "none" <==>
            Reads(ms, LOCK, "none") && !Reads(ms, LOCK, "governance") && !Reads(ms, LOCK, "compliance")
  {
    hide IntegrityOf, Folded, Reads, Readings, Distinct;
    OrdersAreDistinct();
    ReadingsFold(ms);
    assert LOCKS[1..] == ["governance", "compliance"] && LOCKS[0..] == ["none", "governance", "compliance"];
    Strictest1(LOCKS, ms, LOCK, "compliance");
    Strictest2(LOCKS, ms, LOCK, "governance", "compliance");
    Strictest3(LOCKS, ms, LOCK, "none", "governance", "compliance");
  }

  /** The review is as often as the preset that wants it most often. */
  lemma CadenceByName(ms: seq<Preset>)
    ensures ReviewOf(ms).cadence == "daily" <==> Reads(ms, CADENCE, "daily")
    ensures ReviewOf(ms).cadence == "weekly" <==> Reads(ms, CADENCE, "weekly") && !Reads(ms, CADENCE, "daily")
    ensures ReviewOf(ms).cadence == "monthly" <==>
            Reads(ms, CADENCE, "monthly") && !Reads(ms, CADENCE, "weekly") && !Reads(ms, CADENCE, "daily")
    ensures ReviewOf(ms).cadence == "quarterly" <==>
            && Reads(ms, CADENCE, "quarterly") && !Reads(ms, CADENCE, "monthly")
            && !Reads(ms, CADENCE, "weekly") && !Reads(ms, CADENCE, "daily")
  {
    hide ReviewOf, Folded, Reads, Readings, Distinct;
    OrdersAreDistinct();
    ReadingsFold(ms);
    assert CADENCES[2..] == ["weekly", "daily"] && CADENCES[1..] == ["monthly", "weekly", "daily"];
    Strictest1(CADENCES, ms, CADENCE, "daily");
    Strictest2(CADENCES, ms, CADENCE, "weekly", "daily");
    Strictest3(CADENCES, ms, CADENCE, "monthly", "weekly", "daily");
    Strictest4(CADENCES, ms, CADENCE, "quarterly", "monthly", "weekly", "daily");
  }

  /** The anchor, the legal hold and the clock, likewise. */
  lemma OthersByName(ms: seq<Preset>)
    ensures IntegrityOf(ms).timestampAnchor == "required" <==> Reads(ms, ANCHOR, "required")
    ensures IntegrityOf(ms).timestampAnchor == "recommended" <==>
            Reads(ms, ANCHOR, "recommended") && !Reads(ms, ANCHOR, "required")
    ensures IntegrityOf(ms).legalHold == "recommended" <==> Reads(ms, HOLD, "recommended")
    ensures IntegrityOf(ms).clockSyncEvent == "daily" <==> Reads(ms, CLOCK, "daily")
  {
    hide IntegrityOf, Folded, Reads, Readings, Distinct;
    OrdersAreDistinct();
    ReadingsFold(ms);
    assert ANCHORS[1..] == ["recommended", "required"];
    Strictest1(ANCHORS, ms, ANCHOR, "required");
    Strictest2(ANCHORS, ms, ANCHOR, "recommended", "required");
    Strictest1(HOLDS, ms, HOLD, "recommended");
    Strictest1(CLOCKS, ms, CLOCK, "daily");
  }

  const EVIDENCE := (m: Preset) => m.review.evidence

  /** The evidence of a review is the first that any preset names. */
  lemma {:induction false} EvidenceIsFirst(ms: seq<Preset>)
    ensures ReviewOf(ms).evidence == FirstText(Readings(ms, EVIDENCE))
  {
    if ms != [] {
      EvidenceIsFirst(ms[..|ms| - 1]);
      ReadingsFront(ms, EVIDENCE);
      hide Stricter;
    }
  }

  const RETENTION_NOTE := (m: Preset) => m.retention.note

  /** And the note on a retention the first that any preset with a policy has. */
  lemma {:induction false} RetentionNoteIsFirst(ms: seq<Preset>)
    requires forall i :: 0 <= i < |ms| ==> ms[i].retention.policy != ""
    ensures Retention.Composed(Retentions(ms)).note == FirstText(Readings(ms, RETENTION_NOTE))
    ensures ms != [] ==> Retention.Composed(Retentions(ms)).policy != ""
  {
    if ms != [] {
      var n := |ms| - 1;
      RetentionNoteIsFirst(ms[..n]);
      ReadingsFront(ms, RETENTION_NOTE);
      assert Retentions(ms)[..n] == Retentions(ms[..n]) && Retentions(ms)[n] == ms[n].retention;
      if n == 0 { assert Retentions(ms[..n]) == []; }
    }
  }

  // ----- extension properties

  /** `KeepsProperty`: by class, audit when none is declared, and by how personal. */
  predicate KeepsProperty(p: Profile, kind: string, pii: string)
  {
    !(pii != "" && pii in p.forbiddenPii) && (if kind == "" then "audit" else kind) in p.classes
  }

  /** A property is kept exactly when some preset keeps its class, audit when it
      declares none, and no preset forbids how personal it is; and the categories
      a profile requires are those that some preset does. */
  lemma PropertiesByPreset(ms: seq<Preset>, p: Profile, kind: string, pii: string)
    requires Describes(ms, p)
    ensures KeepsProperty(p, kind, pii) <==>
            && (exists i :: 0 <= i < |ms| && (if kind == "" then "audit" else kind) in ms[i].fieldClasses)
            && (pii == "" || forall i :: 0 <= i < |ms| ==> pii !in ms[i].forbiddenPii)
    ensures forall c :: c in p.requiredCategories <==> exists i :: 0 <= i < |ms| && c in ms[i].requiredCategories
  {
    hide IdentityOf, IntegrityOf, ReviewOf, PipelineOf, Gathered;
    GatheredHas(ms, CLASSES, if kind == "" then "audit" else kind);
    GatheredHas(ms, PII, pii);
    forall c ensures c in Gathered(ms, CATEGORIES) <==> exists i :: 0 <= i < |ms| && c in CATEGORIES(ms[i]) {
      GatheredHas(ms, CATEGORIES, c);
    }
    assert forall m: Preset :: CLASSES(m) == m.fieldClasses && PII(m) == m.forbiddenPii;
    assert forall m: Preset :: CATEGORIES(m) == m.requiredCategories;
  }

  lemma GatheredHas(ms: seq<Preset>, get: Preset -> seq<string>, x: string)
    ensures x in Gathered(ms, get) <==> exists i :: 0 <= i < |ms| && x in get(ms[i])
  {
  }

  // ----- the write path

  ghost predicate Greatest(values: set<int>, v: int)
  {
    v in values + {0} && forall x :: x in values + {0} ==> x <= v
  }

  ghost function Numbers(ms: seq<Preset>, get: Preset -> int): set<int>
  {
    set i | 0 <= i < |ms| :: get(ms[i])
  }

  const DEDUPE := (m: Preset) => m.pipeline.dedupeWindowDays
  const HORIZON := (m: Preset) => m.pipeline.streamHorizonDays
  const CLOSE := (m: Preset) => m.pipeline.closeAfterHours

  lemma NumbersFront(ms: seq<Preset>, get: Preset -> int)
    requires ms != []
    ensures Numbers(ms, get) == Numbers(ms[..|ms| - 1], get) + {get(ms[|ms| - 1])}
  {
    var n := |ms| - 1;
    forall x ensures x in Numbers(ms, get) <==> x in Numbers(ms[..n], get) || x == get(ms[n]) {
      if i :| 0 <= i < n && x == get(ms[..n][i]) { assert x == get(ms[i]); }
      if i :| 0 <= i < |ms| && x == get(ms[i]) { assert i < n ==> x == get(ms[..n][i]); }
    }
  }

  lemma OneMoreNumber(values: set<int>, a: int, b: int)
    requires Greatest(values, a)
    ensures Greatest(values + {b}, Retention.Max(a, b))
  {
  }

  /** The widest windows that any preset asks for, and the earliest close. */
  lemma {:induction false} PipelineIsWidest(ms: seq<Preset>)
    ensures Greatest(Numbers(ms, DEDUPE), PipelineOf(ms).dedupeWindowDays)
    ensures Greatest(Numbers(ms, HORIZON), PipelineOf(ms).streamHorizonDays)
    ensures Earliest(Numbers(ms, CLOSE), PipelineOf(ms).closeAfterHours)
  {
    if ms != [] {
      var front, last := ms[..|ms| - 1], ms[|ms| - 1];
      PipelineIsWidest(front);
      NumbersFront(ms, DEDUPE);
      NumbersFront(ms, HORIZON);
      NumbersFront(ms, CLOSE);
      hide Numbers, Earliest, Greatest;
      OneMoreNumber(Numbers(front, DEDUPE), PipelineOf(front).dedupeWindowDays, last.pipeline.dedupeWindowDays);
      OneMoreNumber(Numbers(front, HORIZON), PipelineOf(front).streamHorizonDays, last.pipeline.streamHorizonDays);
      OneMoreClose(Numbers(front, CLOSE), PipelineOf(front).closeAfterHours, last.pipeline.closeAfterHours);
    }
  }

  // ----- the order of the presets

  ghost predicate KnownPreset(m: Preset)
  {
    && Known(DIGESTS, m.integrity.digest) && Known(LOCKS, m.integrity.objectLockMode)
    && Known(ANCHORS, m.integrity.timestampAnchor) && Known(HOLDS, m.integrity.legalHold)
    && Known(CLOCKS, m.integrity.clockSyncEvent) && Known(CADENCES, m.review.cadence)
  }

  ghost predicate SamePresets(a: seq<Preset>, b: seq<Preset>)
  {
    forall m :: m in a <==> m in b
  }

  /** A profile without its name's list, its notes and evidence, and its
      retention. */
  function Essence(p: Profile): Profile
  {
    p.(presets := [], retention := Retention.UNSET, integrity := p.integrity.(note := ""),
        review := p.review.(evidence := ""))
  }

  lemma GatheredSame(a: seq<Preset>, b: seq<Preset>, get: Preset -> seq<string>)
    requires SamePresets(a, b)
    ensures Gathered(a, get) == Gathered(b, get)
  {
    forall f ensures f in Gathered(a, get) <==> f in Gathered(b, get) {
      if i :| 0 <= i < |a| && f in get(a[i]) {
        assert a[i] in a;
        var j :| 0 <= j < |b| && b[j] == a[i];
        assert f in get(b[j]);
      }
      if j :| 0 <= j < |b| && f in get(b[j]) {
        assert b[j] in b;
        var i :| 0 <= i < |a| && a[i] == b[j];
        assert f in get(a[i]);
      }
    }
  }

  lemma ElementsWithin(a: seq<Preset>, b: seq<Preset>, get: Preset -> string)
    requires SamePresets(a, b)
    ensures Elements(Readings(a, get)) <= Elements(Readings(b, get))
  {
    forall x | x in Elements(Readings(a, get)) ensures x in Elements(Readings(b, get)) {
      var i :| 0 <= i < |a| && Readings(a, get)[i] == x;
      assert a[i] in b;
      var j :| 0 <= j < |b| && b[j] == a[i];
      assert Readings(b, get)[j] == x;
    }
  }

  lemma FoldSame(order: seq<string>, a: seq<Preset>, b: seq<Preset>, get: Preset -> string)
    requires SamePresets(a, b) && "" !in order
    requires forall m :: m in a ==> Known(order, get(m))
    ensures Folded(order, Readings(a, get)) == Folded(order, Readings(b, get))
  {
    hide Folded, Strictest, Rank, Known;
    ElementsWithin(a, b, get);
    ElementsWithin(b, a, get);
    var values := Elements(Readings(a, get));
    assert values == Elements(Readings(b, get));
    FoldIsStrictest(order, Readings(a, get));
    FoldIsStrictest(order, Readings(b, get));
    forall x | x in values ensures Known(order, x) {
      var i :| 0 <= i < |a| && Readings(a, get)[i] == x;
      assert a[i] in a;
    }
    StrictestIsOne(order, values, Folded(order, Readings(a, get)), Folded(order, Readings(b, get)));
  }

  lemma NumbersSame(a: seq<Preset>, b: seq<Preset>, get: Preset -> int)
    requires SamePresets(a, b)
    ensures Numbers(a, get) == Numbers(b, get)
  {
    forall x ensures x in Numbers(a, get) <==> x in Numbers(b, get) {
      if i :| 0 <= i < |a| && x == get(a[i]) {
        assert a[i] in a;
        var j :| 0 <= j < |b| && b[j] == a[i];
        assert x == get(b[j]);
      }
      if j :| 0 <= j < |b| && x == get(b[j]) {
        assert b[j] in b;
        var i :| 0 <= i < |a| && a[i] == b[j];
        assert x == get(a[i]);
      }
    }
  }

  lemma IdentityWithin(a: seq<Preset>, b: seq<Preset>, c: string)
    requires SamePresets(a, b) && c in IdentityOf(a)
    ensures c in IdentityOf(b) && Strength(IdentityOf(a)[c]) <= Strength(IdentityOf(b)[c])
  {
    hide IdentityOf, Strength;
    IdentityIsStrictest(a, c);
    IdentityIsStrictest(b, c);
    var i :| 0 <= i < |a| && c in a[i].identity && a[i].identity[c] == IdentityOf(a)[c];
    assert a[i] in a;
    var j :| 0 <= j < |b| && b[j] == a[i];
    assert c in b[j].identity;
  }

  lemma StrengthTells(s: Treatment, t: Treatment)
    requires Strength(s) == Strength(t)
    ensures s == t
  {
  }

  lemma IdentitySame(a: seq<Preset>, b: seq<Preset>)
    requires SamePresets(a, b)
    ensures IdentityOf(a) == IdentityOf(b)
  {
    hide IdentityOf, Strength;
    var x, y := IdentityOf(a), IdentityOf(b);
    forall c ensures (c in x <==> c in y) && (c in x && c in y ==> x[c] == y[c]) {
      if c in x { IdentityWithin(a, b, c); }
      if c in y { IdentityWithin(b, a, c); }
      if c in x && c in y { StrengthTells(x[c], y[c]); }
    }
    assert x.Keys == y.Keys;
  }

  lemma ListsSame(s: seq<string>, t: seq<string>, fields: set<string>)
    requires Lists(s, fields) && Lists(t, fields)
    ensures s == t
  {
    BytesAreStrict();
    assert Ascending(BY_BYTES, s) && Ascending(BY_BYTES, t);
    SameMembers(BY_BYTES, s, t);
  }

  lemma IntegritySame(a: seq<Preset>, b: seq<Preset>)
    requires SamePresets(a, b) && forall m :: m in a ==> KnownPreset(m)
    ensures IntegrityOf(a).digest == IntegrityOf(b).digest &&
            IntegrityOf(a).objectLockMode == IntegrityOf(b).objectLockMode
    ensures IntegrityOf(a).timestampAnchor == IntegrityOf(b).timestampAnchor &&
            IntegrityOf(a).legalHold == IntegrityOf(b).legalHold
    ensures IntegrityOf(a).clockSyncEvent == IntegrityOf(b).clockSyncEvent && ReviewOf(a).cadence == ReviewOf(b).cadence
  {
    hide IntegrityOf, ReviewOf, Folded, Known, SamePresets;
    ReadingsFold(a);
    ReadingsFold(b);
    FoldSame(DIGESTS, a, b, DIGEST);
    FoldSame(LOCKS, a, b, LOCK);
    FoldSame(ANCHORS, a, b, ANCHOR);
    FoldSame(HOLDS, a, b, HOLD);
    FoldSame(CLOCKS, a, b, CLOCK);
    FoldSame(CADENCES, a, b, CADENCE);
  }

  ghost predicate Any(ms: seq<Preset>, get: Preset -> bool)
  {
    exists i :: 0 <= i < |ms| && get(ms[i])
  }

  const LOGGED := (m: Preset) => m.integrity.logAccessLogged
  const ALERTING := (m: Preset) => m.review.automatedAlerting

  lemma AnyFront(ms: seq<Preset>, get: Preset -> bool)
    requires ms != []
    ensures Any(ms, get) <==> Any(ms[..|ms| - 1], get) || get(ms[|ms| - 1])
  {
    var n := |ms| - 1;
    if i :| 0 <= i < n && get(ms[..n][i]) { assert get(ms[i]); }
    if i :| 0 <= i < |ms| && get(ms[i]) { assert i < n ==> get(ms[..n][i]); }
  }

  lemma {:induction false} SwitchesAreAny(ms: seq<Preset>)
    ensures IntegrityOf(ms).logAccessLogged <==> Any(ms, LOGGED)
    ensures ReviewOf(ms).automatedAlerting <==> Any(ms, ALERTING)
  {
    if ms != [] {
      SwitchesAreAny(ms[..|ms| - 1]);
      AnyFront(ms, LOGGED);
      AnyFront(ms, ALERTING);
      hide Any, Stricter, LockNote;
    }
  }

  lemma AnyWithin(a: seq<Preset>, b: seq<Preset>, get: Preset -> bool)
    requires SamePresets(a, b) && Any(a, get)
    ensures Any(b, get)
  {
    var i :| 0 <= i < |a| && get(a[i]);
    assert a[i] in a;
    var j :| 0 <= j < |b| && b[j] == a[i];
    assert get(b[j]);
  }

  lemma SwitchesSame(a: seq<Preset>, b: seq<Preset>)
    requires SamePresets(a, b)
    ensures IntegrityOf(a).logAccessLogged == IntegrityOf(b).logAccessLogged
    ensures ReviewOf(a).automatedAlerting == ReviewOf(b).automatedAlerting
  {
    hide IntegrityOf, ReviewOf, Any;
    SwitchesAreAny(a);
    SwitchesAreAny(b);
    if Any(a, LOGGED) { AnyWithin(a, b, LOGGED); }
    if Any(b, LOGGED) { AnyWithin(b, a, LOGGED); }
    if Any(a, ALERTING) { AnyWithin(a, b, ALERTING); }
    if Any(b, ALERTING) { AnyWithin(b, a, ALERTING); }
  }

  lemma PipelineSame(a: seq<Preset>, b: seq<Preset>)
    requires SamePresets(a, b)
    ensures PipelineOf(a) == PipelineOf(b)
  {
    hide PipelineOf, Numbers, Earliest, SamePresets;
    PipelineIsWidest(a);
    PipelineIsWidest(b);
    NumbersSame(a, b, DEDUPE);
    NumbersSame(a, b, HORIZON);
    NumbersSame(a, b, CLOSE);
    EarliestIsOne(Numbers(a, CLOSE), PipelineOf(a).closeAfterHours, PipelineOf(b).closeAfterHours);
  }

  lemma FieldsSame(a: seq<Preset>, b: seq<Preset>, p: Profile, q: Profile)
    requires Describes(a, p) && Describes(b, q) && SamePresets(a, b)
    ensures p.classes == q.classes && p.forbiddenPii == q.forbiddenPii && p.requiredCategories == q.requiredCategories
    ensures p.requiredFields == q.requiredFields && p.optionalFields == q.optionalFields &&
            p.forbiddenFields == q.forbiddenFields
  {
    hide Gathered, Lists, CoveredBy, SamePresets, IdentityOf, IntegrityOf, ReviewOf, PipelineOf;
    GatheredSame(a, b, CLASSES);
    GatheredSame(a, b, PII);
    GatheredSame(a, b, CATEGORIES);
    GatheredSame(a, b, REQUIRED);
    GatheredSame(a, b, OPTIONAL);
    GatheredSame(a, b, FORBIDDEN);
    ListsSame(p.requiredFields, q.requiredFields, Gathered(a, REQUIRED));
    ListsSame(p.forbiddenFields, q.forbiddenFields, Gathered(a, FORBIDDEN));
    ListsSame(p.requiredCategories, q.requiredCategories, Gathered(a, CATEGORIES));
    ListsSame(p.optionalFields, q.optionalFields,
              set f | f in Gathered(a, OPTIONAL) && !CoveredBy(Gathered(a, FORBIDDEN), f));
  }

  /** A profile is decided by which presets it names: listing them in another
      order, or one of them again, changes nothing but the notes, the evidence
      and the retention. */
  lemma OrderDoesNotMatter(a: seq<Preset>, b: seq<Preset>, p: Profile, q: Profile)
    requires Describes(a, p) && Describes(b, q) && SamePresets(a, b) && p.name == q.name
    requires forall m :: m in a ==> KnownPreset(m)
    ensures Essence(p) == Essence(q)
  {
    hide KnownPreset, SamePresets, IdentityOf, IntegrityOf, ReviewOf, PipelineOf, Lists, Gathered;
    FieldsSame(a, b, p, q);
    IdentitySame(a, b);
    IntegritySame(a, b);
    SwitchesSame(a, b);
    PipelineSame(a, b);
  }

  // ----- the note on the lock

  function LockOf(m: Preset): int
  {
    Rank(LOCKS, m.integrity.objectLockMode)
  }

  /** The reading of the lock that a composition takes, by its rank. */
  function TakenLock(ms: seq<Preset>): int
  {
    Rank(LOCKS, IntegrityOf(ms).objectLockMode)
  }

  /** The first preset of the strictest reading; where none is known, the first. */
  ghost predicate IsFirstTaken(ms: seq<Preset>, s: int)
  {
    && 0 <= s < |ms|
    && (forall i :: 0 <= i < s ==> LockOf(ms[i]) < LockOf(ms[s]))
    && (forall i :: 0 <= i < |ms| ==> LockOf(ms[i]) <= LockOf(ms[s]))
  }

  /** The first note there is from a preset on. */
  function FirstNote(ms: seq<Preset>, s: nat): string
    decreases |ms|
  {
    if |ms| <= s then ""
    else FirstNonEmpty(FirstNote(ms[..|ms| - 1], s), ms[|ms| - 1].integrity.note)
  }

  ghost predicate IsFirstNoted(ms: seq<Preset>, s: int, j: int)
  {
    && 0 <= s <= j < |ms| && ms[j].integrity.note != ""
    && forall k :: s <= k < j ==> ms[k].integrity.note == ""
  }

  lemma StricterRank(order: seq<string>, a: string, b: string)
    requires "" !in order
    ensures Rank(order, Stricter(order, a, b)) ==
            if Rank(order, b) > Rank(order, a) then Rank(order, b) else Rank(order, a)
  {
    hide Rank;
  }

  /** The note of a composition is the first there is from the first preset of
      the strictest lock on, whichever preset it belongs to. */
  lemma {:induction false} NoteIsFirst(ms: seq<Preset>) returns (s: nat)
    requires ms != []
    ensures IsFirstTaken(ms, s) && LockOf(ms[s]) == TakenLock(ms) && IntegrityOf(ms).note == FirstNote(ms, s)
  {
    hide LockOf, TakenLock, IntegrityOf, FirstNote, FirstNonEmpty;
    var n := |ms| - 1;
    var front, last := ms[..n], ms[n];
    assert ms == front + [last];
    LockStep(front, last);
    if n == 0 {
      s := 0;
      FirstNoteStep(front, last, 0);
      NothingNoted(front, last);
    } else {
      s := NoteIsFirst(front);
      FirstNoteStep(front, last, s);
      FirstNoteStep(front, last, n);
      NothingNoted(front, last);
      if LockOf(last) > TakenLock(front) { s := n; }
    }
  }

  lemma LockStep(front: seq<Preset>, last: Preset)
    ensures var ms := front + [last];
            && TakenLock(ms) == (if LockOf(last) > TakenLock(front) then LockOf(last) else TakenLock(front))
            && IntegrityOf(ms).note == (if LockOf(last) > TakenLock(front) then last.integrity.note
                                        else FirstNonEmpty(IntegrityOf(front).note, last.integrity.note))
    ensures front == [] ==> TakenLock(front) == -1 && IntegrityOf(front).note == "" && -1 <= LockOf(last)
  {
    var ms := front + [last];
    assert ms[..|ms| - 1] == front && ms[|ms| - 1] == last;
    StricterRank(LOCKS, IntegrityOf(front).objectLockMode, last.integrity.objectLockMode);
    hide Rank, Stricter;
    assert "" !in LOCKS;
  }

  lemma FirstNoteStep(front: seq<Preset>, last: Preset, s: nat)
    ensures s <= |front| ==> FirstNote(front + [last], s) == FirstNonEmpty(FirstNote(front, s), last.integrity.note)
  {
    var ms := front + [last];
    assert ms[..|ms| - 1] == front;
  }

  lemma NothingNoted(front: seq<Preset>, last: Preset)
    ensures FirstNote(front, |front|) == "" && FirstNonEmpty("", last.integrity.note) == last.integrity.note
  {
  }

  lemma {:induction false} FirstNoteIs(ms: seq<Preset>, s: nat)
    requires s <= |ms|
    ensures FirstNote(ms, s) == "" <==> forall j :: !IsFirstNoted(ms, s, j)
    ensures forall j :: IsFirstNoted(ms, s, j) ==> FirstNote(ms, s) == ms[j].integrity.note
  {
    if s < |ms| {
      var n := |ms| - 1;
      FirstNoteIs(ms[..n], s);
      assert forall i :: 0 <= i < n ==> ms[..n][i] == ms[i];
      forall j | j < n ensures IsFirstNoted(ms, s, j) <==> IsFirstNoted(ms[..n], s, j) {
      }
      if FirstNote(ms[..n], s) == "" {
        NoNoteYet(ms[..n], s);
        assert IsFirstNoted(ms, s, n) <==> ms[n].integrity.note != "";
      }
    }
  }

  lemma {:induction false} NoNoteYet(ms: seq<Preset>, s: nat)
    requires s <= |ms| && FirstNote(ms, s) == ""
    ensures forall k :: s <= k < |ms| ==> ms[k].integrity.note == ""
  {
    if s < |ms| {
      NoNoteYet(ms[..|ms| - 1], s);
      assert forall i :: 0 <= i < |ms| - 1 ==> ms[..|ms| - 1][i] == ms[i];
    }
  }

  /** A note is that of a preset whose reading of the lock is the one taken. */
  ghost predicate ExplainsLock(ms: seq<Preset>, note: string)
  {
    exists i :: 0 <= i < |ms| && LockOf(ms[i]) == TakenLock(ms) && ms[i].integrity.note == note
  }

  /** The composed note explains the lock that was taken if and only if there is
      none from the first preset of that lock on, or the first there is is the
      note of a preset of that lock. */
  lemma NoteExplains(ms: seq<Preset>)
    requires ms != []
    ensures IntegrityOf(ms).note == "" || ExplainsLock(ms, IntegrityOf(ms).note)
       <==> forall s, j :: IsFirstTaken(ms, s) && IsFirstNoted(ms, s, j) ==>
              exists i ::
                && 0 <= i < |ms| && LockOf(ms[i]) == LockOf(ms[s])
                && ms[i].integrity.note == ms[j].integrity.note
  {
    hide LockOf, TakenLock, IntegrityOf, FirstNote;
    var s := NoteIsFirst(ms);
    FirstNoteIs(ms, s);
    forall t | IsFirstTaken(ms, t) ensures t == s { OneFirstTaken(ms, s, t); }
    if IntegrityOf(ms).note != "" {
      var j :| IsFirstNoted(ms, s, j);
    }
  }

  lemma OneFirstTaken(ms: seq<Preset>, s: int, t: int)
    requires IsFirstTaken(ms, s) && IsFirstTaken(ms, t)
    ensures s == t
  {
    hide LockOf;
    assert LockOf(ms[s]) <= LockOf(ms[t]) && LockOf(ms[t]) <= LockOf(ms[s]);
  }

  function Locked(m: Preset, mode: string, note: string): Preset
  {
    m.(integrity := m.integrity.(objectLockMode := mode, note := note))
  }

  /** Compliance without a note, governance with one, compliance with another:
      the note is of the lock that was not taken. */
  lemma NoteOfAnother(m: Preset)
    ensures var ms := [Locked(m, "compliance", ""), Locked(m, "governance", "x"), Locked(m, "compliance", "y")];
            && IntegrityOf(ms).objectLockMode == "compliance" && IntegrityOf(ms).note == "x"
            && !ExplainsLock(ms, IntegrityOf(ms).note)
  {
    hide IntegrityOf;
    var a, b, c := Locked(m, "compliance", ""), Locked(m, "governance", "x"), Locked(m, "compliance", "y");
    LockRanks();
    assert [a] == [] + [a] && [a, b] == [a] + [b] && [a, b, c] == [a, b] + [c];
    LockStep([], a);
    LockStep([a], b);
    LockStep([a, b], c);
    hide Rank, LockNote;
    assert TakenLock([a, b, c]) == 2;
    assert LOCKS[2] == "compliance";
  }

  lemma LockRanks()
    ensures Rank(LOCKS, "") == -1 && Rank(LOCKS, "governance") == 1 && Rank(LOCKS, "compliance") == 2
  {
    assert LOCKS[1] == "governance" && LOCKS[2] == "compliance";
    assert LOCKS[0][0] == 'n' && LOCKS[1][0] == 'g' && LOCKS[2][0] == 'c';
    assert |LOCKS[0]| > 0;
  }

  // ----- fields

  /** A listed field keeps what is beneath it and what has to carry it. */
  predicate Related(f: string, pointer: string)
  {
    Covers(f, pointer) || IsUnder(f, pointer)
  }

  predicate Keeps(p: Profile, pointer: string)
  {
    && (forall f :: f in p.forbiddenFields ==> !Covers(f, pointer))
    && exists f :: f in p.requiredFields + p.optionalFields && Related(f, pointer)
  }

  method KeepsField(p: Profile, pointer: string) returns (kept: bool)
    ensures kept <==> Keeps(p, pointer)
  {
    hide Covers, Related;
    for i := 0 to |p.forbiddenFields|
      invariant forall k :: 0 <= k < i ==> !Covers(p.forbiddenFields[k], pointer)
    {
      if Covers(p.forbiddenFields[i], pointer) {
        assert p.forbiddenFields[i] in p.forbiddenFields;
        return false;
      }
    }
    var listed := p.requiredFields + p.optionalFields;
    for i := 0 to |listed|
      invariant forall k :: 0 <= k < i ==> !Related(listed[k], pointer)
    {
      if Related(listed[i], pointer) {
        assert listed[i] in listed;
        return true;
      }
    }
    return false;
  }

  lemma UnderIsTransitive(a: string, b: string, c: string)
    requires Covers(a, b) && Covers(b, c)
    ensures Covers(a, c)
  {
    if b != a && c != b {
      assert c[..|b| + 1] == b + "/";
      assert b[..|a| + 1] == a + "/";
      assert c[..|b|] == c[..|b| + 1][..|b|] == b;
      assert c[..|a| + 1] == c[..|b|][..|a| + 1];
    }
  }

  lemma AncestorsCompare(f: string, a: string, x: string)
    requires Covers(f, x) && Covers(a, x)
    ensures Related(f, a)
  {
    if f != x && a != x && f != a {
      assert x[..|f| + 1] == f + "/" && x[..|a| + 1] == a + "/";
      assert x[..|f| + 1][..|f|] == f && x[..|a| + 1][..|a|] == a;
      if |f| < |a| {
        assert a[..|f| + 1] == x[..|f| + 1];
      } else if |a| < |f| {
        assert f[..|a| + 1] == x[..|a| + 1];
      }
    }
  }

  /** What carries a kept field is kept: the policy is closed towards the root,
      whatever the lists are. */
  lemma CarriersAreKept(p: Profile, a: string, x: string)
    requires Keeps(p, x) && Covers(a, x)
    ensures Keeps(p, a)
  {
    hide Covers, IsUnder;
    forall f | f in p.forbiddenFields ensures !Covers(f, a) {
      if Covers(f, a) { UnderIsTransitive(f, a, x); }
    }
    var f :| f in p.requiredFields + p.optionalFields && Related(f, x);
    if Covers(f, x) { AncestorsCompare(f, a, x); } else { UnderFollows(a, x, f); }
  }

  lemma UnderFollows(a: string, x: string, f: string)
    requires Covers(a, x) && IsUnder(f, x)
    ensures IsUnder(f, a)
  {
    UnderIsTransitive(a, x, f);
  }

  /** What a profile keeps, in the presets' own terms: nothing that one of them
      forbids or beneath it, and otherwise exactly what lies beneath, or has to
      carry, a field that one of them lists and none forbids. */
  lemma KeepsExactly(ms: seq<Preset>, p: Profile, pointer: string)
    requires Describes(ms, p) && !Conflict(ms)
    ensures Keeps(p, pointer) <==>
            && !CoveredBy(Gathered(ms, FORBIDDEN), pointer)
            && exists f ::
                 && f in Gathered(ms, REQUIRED) + Gathered(ms, OPTIONAL)
                 && !CoveredBy(Gathered(ms, FORBIDDEN), f) && Related(f, pointer)
  {
    hide Gathered, Covers, IdentityOf, IntegrityOf, ReviewOf, PipelineOf, Related;
    var listed := p.requiredFields + p.optionalFields;
    assert forall f :: f in listed <==> f in p.requiredFields || f in p.optionalFields;
  }

  /** A field that a preset lists as optional is kept exactly when no preset forbids
      it or what it is beneath. */
  lemma OptionalIsKept(ms: seq<Preset>, p: Profile, i: nat, f: string)
    requires Describes(ms, p) && !Conflict(ms) && i < |ms| && f in ms[i].optionalFields
    ensures Keeps(p, f) <==> forall j, g :: 0 <= j < |ms| && g in ms[j].forbiddenFields ==> !Covers(g, f)
  {
    hide Keeps, IdentityOf, IntegrityOf, ReviewOf, PipelineOf, Describes, Conflict;
    KeepsExactly(ms, p, f);
    assert f in OPTIONAL(ms[i]);
    assert f in Gathered(ms, OPTIONAL);
    assert Related(f, f);
    if !CoveredBy(Gathered(ms, FORBIDDEN), f) {
      forall j, g | 0 <= j < |ms| && g in ms[j].forbiddenFields ensures !Covers(g, f) {
        assert g in FORBIDDEN(ms[j]);
        assert g in Gathered(ms, FORBIDDEN);
      }
    }
  }

  /** A profile that was composed keeps every field that a preset requires, and
      none that a preset forbids, nor anything beneath one. */
  lemma RequiredAndForbidden(ms: seq<Preset>, p: Profile, i: nat)
    requires Describes(ms, p) && !Conflict(ms) && i < |ms|
    ensures forall f :: f in ms[i].requiredFields ==> Keeps(p, f)
    ensures forall f, pointer :: f in ms[i].forbiddenFields && Covers(f, pointer) ==> !Keeps(p, pointer)
  {
    hide Keeps, IdentityOf, IntegrityOf, ReviewOf, PipelineOf, Describes;
    forall f | f in ms[i].requiredFields ensures Keeps(p, f) {
      assert f in REQUIRED(ms[i]);
      assert f in Gathered(ms, REQUIRED);
      KeepsExactly(ms, p, f);
    }
    forall f, pointer | f in ms[i].forbiddenFields && Covers(f, pointer) ensures !Keeps(p, pointer) {
      assert f in FORBIDDEN(ms[i]);
      assert f in Gathered(ms, FORBIDDEN);
      KeepsExactly(ms, p, pointer);
    }
  }
}
