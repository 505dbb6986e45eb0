/** preset/profile.go: presets composed into a profile, and the fields a copy
    under it keeps. */
module Compose {
  import opened Ordering
  import opened Strictness
  import Lex
  import Retention

  datatype Treatment = Clear | Scoped | Pseudonym | Omit

  function Strength(t: Treatment): int
  {
    match t
    case Clear => 0
    case Scoped => 1
    case Pseudonym => 2
    case Omit => 3
  }

  type Identity = map<string, Treatment>

  datatype Integrity = Integrity(
    digest: string, objectLockMode: string, timestampAnchor: string, legalHold: string, clockSyncEvent: string,
    logAccessLogged: bool, note: string)

  datatype Review = Review(automatedAlerting: bool, cadence: string, evidence: string)

  datatype Pipeline = Pipeline(dedupeWindowDays: int, streamHorizonDays: int, closeAfterHours: int)

  datatype Preset = Preset(
    fieldClasses: seq<string>, requiredFields: seq<string>, optionalFields: seq<string>, forbiddenFields: seq<string>,
    forbiddenPii: seq<string>, requiredCategories: seq<string>,
    identity: Identity, retention: Retention.Retention, integrity: Integrity, review: Review, pipeline: Pipeline)

  datatype Profile = Profile(
    name: string, presets: seq<string>,
    classes: set<string>, requiredFields: seq<string>, optionalFields: seq<string>, forbiddenFields: seq<string>,
    forbiddenPii: set<string>, requiredCategories: seq<string>,
    identity: Identity, retention: Retention.Retention, integrity: Integrity, review: Review, pipeline: Pipeline)

  datatype Outcome = Resolved(profile: Profile) | Refused(reason: Reason)

  datatype Reason = NoName | SlashInName | NoPresets | NoSuchPreset(name: string) | Conflicting

  const DIGESTS := ["recommended", "required"]
  const LOCKS := ["none", "governance", "compliance"]
  const ANCHORS := ["none", "recommended", "required"]
  const HOLDS := ["available", "recommended"]
  const CLOCKS := ["none", "daily"]
  const CADENCES := ["quarterly", "monthly", "weekly", "daily"]

  // ----- two readings into one

  function FirstNonEmpty(a: string, b: string): string
  {
    if a != "" then a else b
  }

  function LockNote(a: Integrity, b: Integrity): string
  {
    if Rank(LOCKS, b.objectLockMode) > Rank(LOCKS, a.objectLockMode) then b.note else FirstNonEmpty(a.note, b.note)
  }

  function StricterIntegrity(a: Integrity, b: Integrity): Integrity
  {
    Integrity(
      Stricter(DIGESTS, a.digest, b.digest),
      Stricter(LOCKS, a.objectLockMode, b.objectLockMode),
      Stricter(ANCHORS, a.timestampAnchor, b.timestampAnchor),
      Stricter(HOLDS, a.legalHold, b.legalHold),
      Stricter(CLOCKS, a.clockSyncEvent, b.clockSyncEvent),
      a.logAccessLogged || b.logAccessLogged,
      LockNote(a, b))
  }

  function MoreFrequentReview(a: Review, b: Review): Review
  {
    Review(
      a.automatedAlerting || b.automatedAlerting,
      Stricter(CADENCES, a.cadence, b.cadence),
      FirstNonEmpty(a.evidence, b.evidence))
  }

  function WiderPipeline(a: Pipeline, b: Pipeline): Pipeline
  {
    Pipeline(
      Retention.Max(a.dedupeWindowDays, b.dedupeWindowDays),
      Retention.Max(a.streamHorizonDays, b.streamHorizonDays),
      Strictness.Earlier(a.closeAfterHours, b.closeAfterHours))
  }

  function StricterIdentity(a: Identity, b: Identity): Identity
  {
    map c | c in a.Keys + b.Keys ::
      if c !in b then a[c] else if c !in a || Strength(b[c]) > Strength(a[c]) then b[c] else a[c]
  }

  // ----- a list of presets into one

  function Gathered(ms: seq<Preset>, get: Preset -> seq<string>): set<string>
  {
    set i, f | 0 <= i < |ms| && f in get(ms[i]) :: f
  }

  const CLASSES := (m: Preset) => m.fieldClasses
  const REQUIRED := (m: Preset) => m.requiredFields
  const OPTIONAL := (m: Preset) => m.optionalFields
  const FORBIDDEN := (m: Preset) => m.forbiddenFields
  const PII := (m: Preset) => m.forbiddenPii
  const CATEGORIES := (m: Preset) => m.requiredCategories

  function IdentityOf(ms: seq<Preset>): Identity
  {
    if ms == [] then map[] else StricterIdentity(IdentityOf(ms[..|ms| - 1]), ms[|ms| - 1].identity)
  }

  function IntegrityOf(ms: seq<Preset>): Integrity
  {
    if ms == [] then Integrity("", "", "", "", "", false, "")
    else StricterIntegrity(IntegrityOf(ms[..|ms| - 1]), ms[|ms| - 1].integrity)
  }

  function ReviewOf(ms: seq<Preset>): Review
  {
    if ms == [] then Review(false, "", "") else MoreFrequentReview(ReviewOf(ms[..|ms| - 1]), ms[|ms| - 1].review)
  }

  function PipelineOf(ms: seq<Preset>): Pipeline
  {
    if ms == [] then Pipeline(0, 0, 0) else WiderPipeline(PipelineOf(ms[..|ms| - 1]), ms[|ms| - 1].pipeline)
  }

  function Retentions(ms: seq<Preset>): seq<Retention.Retention>
  {
    seq(|ms|, i requires 0 <= i < |ms| => ms[i].retention)
  }

  // ----- fields

  predicate IsUnder(child: string, parent: string)
  {
    Lex.HasPrefix(child, parent + "/")
  }

  /** A pointer is a listed one or beneath it. */
  predicate Covers(f: string, pointer: string)
  {
    pointer == f || IsUnder(pointer, f)
  }

  predicate CoveredBy(fields: set<string>, pointer: string)
  {
    exists f :: f in fields && Covers(f, pointer)
  }

  ghost predicate Conflict(ms: seq<Preset>)
  {
    exists r :: r in Gathered(ms, REQUIRED) && CoveredBy(Gathered(ms, FORBIDDEN), r)
  }

  function Members(names: seq<string>, available: map<string, Preset>): seq<Preset>
    requires forall n :: n in names ==> n in available
  {
    seq(|names|, i requires 0 <= i < |names| => assert names[i] in names; available[names[i]])
  }

  /** In order, each once. */
  ghost predicate Lists(s: seq<string>, fields: set<string>)
  {
    Lex.Increasing(s) && forall f :: f in s <==> f in fields
  }

  /** What a profile is of the presets it is made of. */
  ghost predicate Describes(ms: seq<Preset>, p: Profile)
  {
    && p.classes == Gathered(ms, CLASSES)
    && Lists(p.requiredFields, Gathered(ms, REQUIRED))
    && Lists(p.forbiddenFields, Gathered(ms, FORBIDDEN))
    && Lists(p.optionalFields, set f | f in Gathered(ms, OPTIONAL) && !CoveredBy(Gathered(ms, FORBIDDEN), f))
    && p.forbiddenPii == Gathered(ms, PII)
    && Lists(p.requiredCategories, Gathered(ms, CATEGORIES))
    && p.identity == IdentityOf(ms)
    && p.retention == Retention.Composed(Retentions(ms))
    && p.integrity == IntegrityOf(ms)
    && p.review == ReviewOf(ms)
    && p.pipeline == PipelineOf(ms)
  }

  lemma GatherMore(ms: seq<Preset>, m: Preset, get: Preset -> seq<string>)
    ensures Gathered(ms + [m], get) == Gathered(ms, get) + set f | f in get(m)
  {
    var more := ms + [m];
    forall f ensures f in Gathered(more, get) <==> f in Gathered(ms, get) || f in get(m) {
      if i :| 0 <= i < |ms| && f in get(ms[i]) { assert more[i] == ms[i]; }
      if f in get(m) { assert more[|ms|] == m; }
    }
  }

  const BY_BYTES: Order<string> := (a: string, b: string) => Lex.Less(a, b)

  method SortedFields(fields: set<string>) returns (out: seq<string>)
    ensures Lists(out, fields)
  {
    var all, left := [], fields;
    while left != {}
      invariant left <= fields
      invariant forall f :: f in all <==> f in fields - left
      invariant forall i, j :: 0 <= i < j < |all| ==> all[i] != all[j]
    {
      var f :| f in left;
      assert forall k :: 0 <= k < |all| ==> all[k] in all && all[k] != f;
      all := all + [f];
      left := left - {f};
    }
    SortedIsIncreasing(all);
    out := Sort(BY_BYTES, all);
  }

  lemma BytesAreStrict()
    ensures Strict(BY_BYTES)
  {
    forall a: string ensures !BY_BYTES(a, a) { Lex.Irreflexive(a); }
    forall a: string, b: string, c: string | BY_BYTES(a, b) && BY_BYTES(b, c)
      ensures BY_BYTES(a, c)
    {
      Lex.Transitive(a, b, c);
    }
  }

  lemma SortedIsIncreasing(all: seq<string>)
    requires forall i, j :: 0 <= i < j < |all| ==> all[i] != all[j]
    ensures Lex.Increasing(Sort(BY_BYTES, all))
  {
    hide Sort;
    BytesAreStrict();
    forall i, j | 0 <= i < j < |all|
      ensures BY_BYTES(all[i], all[j]) || BY_BYTES(all[j], all[i])
    {
      Lex.Total(all[i], all[j]);
    }
    SortAscends(BY_BYTES, all);
    var out := Sort(BY_BYTES, all);
    forall i, j | 0 <= i < j < |out| ensures Lex.Less(out[i], out[j]) { assert BY_BYTES(out[i], out[j]); }
  }

  /** What has been taken from the presets so far: the profile's maps before
      they are listed, and its folded fields. */
  datatype Draft = Draft(
    classes: set<string>, required: set<string>, optional: set<string>, forbidden: set<string>,
    pii: set<string>, categories: set<string>,
    identity: Identity, retention: Retention.Retention, integrity: Integrity, review: Review, pipeline: Pipeline)

  const BLANK := Draft(
    {}, {}, {}, {}, {}, {}, map[], Retention.UNSET,
    Integrity("", "", "", "", "", false, ""), Review(false, "", ""), Pipeline(0, 0, 0))

  function DraftOf(ms: seq<Preset>): Draft
  {
    Draft(Gathered(ms, CLASSES), Gathered(ms, REQUIRED), Gathered(ms, OPTIONAL), Gathered(ms, FORBIDDEN),
          Gathered(ms, PII), Gathered(ms, CATEGORIES),
          IdentityOf(ms), Retention.Composed(Retentions(ms)), IntegrityOf(ms), ReviewOf(ms), PipelineOf(ms))
  }

  function Add(d: Draft, src: Preset): Draft
  {
    Draft(
      d.classes + (set f | f in src.fieldClasses),
      d.required + (set f | f in src.requiredFields),
      d.optional + (set f | f in src.optionalFields),
      d.forbidden + (set f | f in src.forbiddenFields),
      d.pii + (set f | f in src.forbiddenPii),
      d.categories + (set f | f in src.requiredCategories),
      StricterIdentity(d.identity, src.identity),
      Retention.Longer(d.retention, src.retention),
      StricterIntegrity(d.integrity, src.integrity),
      MoreFrequentReview(d.review, src.review),
      WiderPipeline(d.pipeline, src.pipeline))
  }

  lemma DraftGrows(ms: seq<Preset>, m: Preset)
    ensures DraftOf(ms + [m]) == Add(DraftOf(ms), m)
  {
    hide Gathered, StricterIdentity, StricterIntegrity, MoreFrequentReview, WiderPipeline, Retention.Longer;
    hide IdentityOf, IntegrityOf, ReviewOf, PipelineOf, Retention.Composed, Retentions;
    OneMorePreset(ms, m);
  }

  /** The presets of a composition in turn, up to one that does not exist. */
  method Collect(presets: seq<string>, available: map<string, Preset>)
    returns (missing: bool, name: string, draft: Draft)
    ensures missing <==> exists n :: n in presets && n !in available
    ensures missing ==> name in presets && name !in available
    ensures !missing ==> draft == DraftOf(Members(presets, available))
  {
    hide DraftOf, Add;
    missing, name, draft := false, "", BLANK;
    Nothing();
    ghost var ms: seq<Preset> := [];
    for i := 0 to |presets|
      invariant |ms| == i && forall k :: 0 <= k < i ==> presets[k] in available && ms[k] == available[presets[k]]
      invariant draft == DraftOf(ms)
    {
      if presets[i] !in available { return true, presets[i], BLANK; }
      DraftGrows(ms, available[presets[i]]);
      draft := Add(draft, available[presets[i]]);
      ms := ms + [available[presets[i]]];
    }
    assert ms == Members(presets, available);
  }

  method Compose(name: string, presets: seq<string>, available: map<string, Preset>) returns (r: Outcome)
    ensures r == Refused(NoName) <==> name == ""
    ensures r == Refused(SlashInName) <==> name != "" && '/' in name
    ensures r == Refused(NoPresets) <==> name != "" && '/' !in name && presets == []
    ensures r.Refused? && r.reason.NoSuchPreset? <==>
            name != "" && '/' !in name && exists n :: n in presets && n !in available
    ensures r == Refused(Conflicting) <==> (name != "" && '/' !in name && presets != [] &&
                                            (forall n :: n in presets ==> n in available) &&
                                            Conflict(Members(presets, available)))
    ensures r.Refused? && r.reason.NoSuchPreset? ==> r.reason.name in presets && r.reason.name !in available
    ensures r.Resolved? ==>
              && r.profile.name == name && r.profile.presets == presets && presets != []
              && (forall n :: n in presets ==> n in available)
              && Describes(Members(presets, available), r.profile)
  {
    if name == "" { return Refused(NoName); }
    if '/' in name { return Refused(SlashInName); }
    if presets == [] { return Refused(NoPresets); }
    var missing, which, d := Collect(presets, available);
    if missing { return Refused(NoSuchPreset(which)); }
    hide CoveredBy, Members, IdentityOf, IntegrityOf, ReviewOf, PipelineOf;
    hide Retention.Composed, Retentions, Gathered, Lists;
    if exists r :: r in d.required && CoveredBy(d.forbidden, r) {
      return Refused(Conflicting);
    }
    var requiredFields := SortedFields(d.required);
    var optionalFields := SortedFields(set f | f in d.optional && !CoveredBy(d.forbidden, f));
    var forbiddenFields := SortedFields(d.forbidden);
    var requiredCategories := SortedFields(d.categories);
    return Resolved(Profile(name, presets, d.classes, requiredFields, optionalFields, forbiddenFields,
                            d.pii, requiredCategories, d.identity, d.retention, d.integrity, d.review, d.pipeline));
  }

  lemma Nothing()
    ensures DraftOf([]) == BLANK
  {
  }

  lemma OneMorePreset(ms: seq<Preset>, m: Preset)
    ensures Gathered(ms + [m], CLASSES) == Gathered(ms, CLASSES) + set f | f in m.fieldClasses
    ensures Gathered(ms + [m], REQUIRED) == Gathered(ms, REQUIRED) + set f | f in m.requiredFields
    ensures Gathered(ms + [m], OPTIONAL) == Gathered(ms, OPTIONAL) + set f | f in m.optionalFields
    ensures Gathered(ms + [m], FORBIDDEN) == Gathered(ms, FORBIDDEN) + set f | f in m.forbiddenFields
    ensures Gathered(ms + [m], PII) == Gathered(ms, PII) + set f | f in m.forbiddenPii
    ensures Gathered(ms + [m], CATEGORIES) == Gathered(ms, CATEGORIES) + set f | f in m.requiredCategories
    ensures IdentityOf(ms + [m]) == StricterIdentity(IdentityOf(ms), m.identity)
    ensures IntegrityOf(ms + [m]) == StricterIntegrity(IntegrityOf(ms), m.integrity)
    ensures ReviewOf(ms + [m]) == MoreFrequentReview(ReviewOf(ms), m.review)
    ensures PipelineOf(ms + [m]) == WiderPipeline(PipelineOf(ms), m.pipeline)
    ensures Retention.Composed(Retentions(ms + [m])) ==
            Retention.Longer(Retention.Composed(Retentions(ms)), m.retention)
  {
    hide Gathered, StricterIdentity, StricterIntegrity, MoreFrequentReview, WiderPipeline, Retention.Longer;
    var more := ms + [m];
    GatherMore(ms, m, CLASSES);
    GatherMore(ms, m, REQUIRED);
    GatherMore(ms, m, OPTIONAL);
    GatherMore(ms, m, FORBIDDEN);
    GatherMore(ms, m, PII);
    GatherMore(ms, m, CATEGORIES);
    assert more[..|more| - 1] == ms && more[|more| - 1] == m;
    assert Retentions(more)[..|more| - 1] == Retentions(ms) && Retentions(more)[|more| - 1] == m.retention;
  }
}
