/** internal/bucketcontract/seals.go: the independent reading of a tenant's
    seals, and what its verdicts are worth. */
module SealChecker {
  import opened Options
  import opened Merkle
  import opened Seals
  import opened SealProtocol
  import Layout

  datatype Rule = Jws | Payload | Signature | ChainRule | RootRule | Missing | LockRule

  /** A rule broken in an hour, or a key under the seals that is no seal's. */
  datatype Finding = Finding(rule: Rule, hour: int) | StrayKey(key: string)

  /** What a check is of: an inclusive range of hours, the moment it is made,
      the settle window and the notary's grace, whether the profile demands a
      lock, and the statements a pinned root vouches for. */
  datatype Check = Check(from: int, to: int, now: int, settle: nat, grace: nat, lock: bool, trusts: Body -> bool)

  /** The hour a tenant's seals begin at, when its first key says. */
  ghost function FirstKnown(b: Bucket): Option<int>
  {
    if b.strayFirst || !HasObjects(b.objects) || b.objects[First(b.objects)][0].Stray? then None
    else Some(First(b.objects))
  }

  function Due(o: Check): int
  {
    LastSealable(o.now, o.settle + o.grace)
  }

  /** Whether an hour no longer holds what its seal says. */
  predicate Changed(now: Held, s: Seal)
  {
    || now.count != s.count
    || now.first != s.first || now.last != s.last
    || (s.objects.Some? && s.objects.value != now.objects)
    || Root(now.leaves) != s.root
  }

  function When(bad: bool, rule: Rule): seq<Rule>
  {
    if bad then [rule] else []
  }

  predicate BrokenLink(hash: Hasher, s: Seal, prev: Option<Body>)
  {
    match prev
    case None => s.prev != ""
    case Some(p) => s.prev != hash(p)
  }

  /** The rules one seal breaks. */
  function SealFindings(c: Setting, o: Check, objects: seq<Entry>, hour: int, stored: Stored,
                        prev: Option<Body>): seq<Rule>
  {
    match ParseSeal(stored.body)
    case Unreadable(NotAToken) => [Jws]
    case Unreadable(NotASeal) => [Payload]
    case Statement(s) =>
      var now := HeldBy(objects, false);
      When(s.profile != c.profile || s.tenant != c.tenant || s.hour != hour, Payload)
      + When(s.sealedAt < (hour + 1) * HOUR, Payload)
      + When(!o.trusts(stored.body), Signature)
      + When(BrokenLink(c.hash, s, prev), ChainRule)
      + When(Changed(now, s), RootRule)
      + When(o.lock && (stored.retain == 0 || stored.retain < now.retain), LockRule)
  }

  /** The rules an hour breaks, by what the bucket holds for it and before it. */
  function HourFindings(c: Setting, o: Check, first: Option<int>, b: Bucket, hour: int): seq<Rule>
  {
    if hour in b.seals then
      SealFindings(c, o, ObjectsOf(b.objects, hour), hour, b.seals[hour], Lookup(b.seals, hour - 1))
    else When(first.Some? && first.value <= hour <= Due(o), Missing)
  }

  function Tagged(rules: seq<Rule>, hour: int): (r: seq<Finding>)
    ensures |r| == |rules| && forall i :: 0 <= i < |r| ==> r[i] == Finding(rules[i], hour)
  {
    seq(|rules|, i requires 0 <= i < |rules| => Finding(rules[i], hour))
  }

  /** The keys of a listing that are not in the grammar, as findings. */
  function StrayFindings(listed: seq<string>): seq<Finding>
  {
    if listed == [] then []
    else
      var rest, key := StrayFindings(listed[..|listed| - 1]), listed[|listed| - 1];
      if Layout.ParseSealKey(key).None? then rest + [StrayKey(key)] else rest
  }

  /** A key is complained of exactly when it is listed and is not the key of any
      seal. */
  lemma {:induction false} StraysAreReported(listed: seq<string>, key: string)
    ensures StrayKey(key) in StrayFindings(listed)
       <==> && key in listed
            && forall o :: !(Layout.WellFormedSeal(o) && key == Layout.SealKey(o.profile, o.tenant, o.hour))
  {
    hide Layout.ParseSealKey, Layout.SealKey, Layout.WellFormedSeal;
    forall o ensures Layout.ParseSealKey(key) == Some(o) <==>
                       Layout.WellFormedSeal(o) && key == Layout.SealKey(o.profile, o.tenant, o.hour)
    {
      Layout.SealKeyExact(key, o);
    }
    StraysAre(listed, key);
    assert Layout.ParseSealKey(key).Some? ==> Layout.ParseSealKey(key) == Some(Layout.ParseSealKey(key).value);
  }

  lemma {:induction false} StraysAre(listed: seq<string>, key: string)
    ensures StrayKey(key) in StrayFindings(listed) <==> key in listed && Layout.ParseSealKey(key).None?
  {
    hide Layout.ParseSealKey;
    if listed != [] {
      var n := |listed| - 1;
      assert listed == listed[..n] + [listed[n]];
      StraysAre(listed[..n], key);
    }
  }

  /** The findings of the hours from one up to, and not including, another. */
  function RangeFindings(c: Setting, o: Check, first: Option<int>, b: Bucket, from: int, end: int): seq<Finding>
    decreases end - from
  {
    if end <= from then []
    else RangeFindings(c, o, first, b, from, end - 1) + Tagged(HourFindings(c, o, first, b, end - 1), end - 1)
  }

  /** How many seals a range holds, and which of them are without fault. */
  function SealedHours(c: Setting, o: Check, first: Option<int>, b: Bucket, from: int, end: int): (nat, seq<int>)
    decreases end - from
  {
    if end <= from then (0, [])
    else
      var (n, clean) := SealedHours(c, o, first, b, from, end - 1);
      if end - 1 !in b.seals then (n, clean)
      else (n + 1, if HourFindings(c, o, first, b, end - 1) == [] then clean + [end - 1] else clean)
  }

  lemma {:induction false} RangeHas(c: Setting, o: Check, first: Option<int>, b: Bucket, from: int, end: int,
                                    f: Finding)
    ensures f in RangeFindings(c, o, first, b, from, end)
       <==> f.Finding? && from <= f.hour < end && f.rule in HourFindings(c, o, first, b, f.hour)
    decreases end - from
  {
    hide HourFindings;
    if from < end {
      RangeHas(c, o, first, b, from, end - 1, f);
      var rules := HourFindings(c, o, first, b, end - 1);
      var tagged := Tagged(rules, end - 1);
      if f in tagged {
        var i :| 0 <= i < |tagged| && tagged[i] == f;
        assert rules[i] == f.rule;
      }
      if f.Finding? && f.hour == end - 1 && f.rule in rules {
        var i :| 0 <= i < |rules| && rules[i] == f.rule;
        assert tagged[i] == f;
      }
    }
  }

  /** The report of a check, as it grows. */
  class Report {
    var findings: seq<Finding>
    var seals: nat
    var clean: seq<int>

    constructor ()
      ensures findings == [] && seals == 0 && clean == []
    {
      findings, seals, clean := [], 0, [];
    }

    method Bad(hour: int, rules: seq<Rule>)
      modifies this`findings
      ensures findings == old(findings) + Tagged(rules, hour)
    {
      findings := findings + Tagged(rules, hour);
    }

    /** The keys under a tenant's seals that no hour can be read from. */
    method Strays(listed: seq<string>)
      modifies this`findings
      ensures findings == old(findings) + StrayFindings(listed)
    {
      hide Layout.ParseSealKey;
      for i := 0 to |listed|
        invariant findings == old(findings) + StrayFindings(listed[..i])
      {
        assert listed[..i + 1][..i] == listed[..i];
        if Layout.ParseSealKey(listed[i]).None? {
          findings := findings + [StrayKey(listed[i])];
        }
      }
      assert listed[..|listed|] == listed;
    }

    /** One tenant: the strays among the keys listed, then its hours, oldest
        first. The seal before is carried from turn to turn, as the loop does,
        and never looked up again. */
    method Tenant(c: Setting, o: Check, b: Bucket, first: Option<int>, listed: seq<string>)
      modifies this
      ensures findings == old(findings) + StrayFindings(listed) + RangeFindings(c, o, first, b, o.from, o.to + 1)
      ensures var (n, faultless) := SealedHours(c, o, first, b, o.from, o.to + 1);
              seals == old(seals) + n && clean == old(clean) + faultless
    {
      hide SealFindings, Due, ObjectsOf, StrayFindings, RangeFindings, SealedHours, Tagged;
      Strays(listed);
      ghost var strays := findings;
      NoHours(c, o, first, b, o.from);
      var prev := Lookup(b.seals, o.from - 1);
      var hour := o.from;
      while hour <= o.to
        invariant o.from <= hour && (hour == o.from || hour <= o.to + 1)
        invariant prev == Lookup(b.seals, hour - 1)
        invariant findings == strays + RangeFindings(c, o, first, b, o.from, hour)
        invariant var (n, faultless) := SealedHours(c, o, first, b, o.from, hour);
                  seals == old(seals) + n && clean == old(clean) + faultless
        decreases o.to - hour
      {
        NextHour(c, o, first, b, o.from, hour);
        ghost var rules := Tagged(HourFindings(c, o, first, b, hour), hour);
        JoinedAlike(strays, RangeFindings(c, o, first, b, o.from, hour), rules);
        if hour !in b.seals {
          if first.Some? && first.value <= hour <= Due(o) {
            Bad(hour, [Missing]);
          } else {
            Bad(hour, []);
          }
          prev := None;
        } else {
          seals := seals + 1;
          var found := SealFindings(c, o, ObjectsOf(b.objects, hour), hour, b.seals[hour], prev);
          Bad(hour, found);
          if found == [] {
            clean := clean + [hour];
          }
          prev := Some(b.seals[hour].body);
        }
        hour := hour + 1;
      }
      if o.to < o.from { EmptyRange(c, o, first, b); }
    }
  }

  lemma NoHours(c: Setting, o: Check, first: Option<int>, b: Bucket, from: int)
    ensures RangeFindings(c, o, first, b, from, from) == [] && SealedHours(c, o, first, b, from, from) == (0, [])
  {
  }

  lemma EmptyRange(c: Setting, o: Check, first: Option<int>, b: Bucket)
    requires o.to < o.from
    ensures RangeFindings(c, o, first, b, o.from, o.to + 1) == []
    ensures SealedHours(c, o, first, b, o.from, o.to + 1) == (0, [])
  {
  }

  lemma NextHour(c: Setting, o: Check, first: Option<int>, b: Bucket, from: int, hour: int)
    requires from <= hour
    ensures RangeFindings(c, o, first, b, from, hour + 1) ==
            RangeFindings(c, o, first, b, from, hour) + Tagged(HourFindings(c, o, first, b, hour), hour)
    ensures var (n, clean) := SealedHours(c, o, first, b, from, hour);
            SealedHours(c, o, first, b, from, hour + 1) ==
            if hour !in b.seals then (n, clean)
            else (n + 1, if HourFindings(c, o, first, b, hour) == [] then clean + [hour] else clean)
  {
    hide HourFindings, Tagged;
  }

  lemma JoinedAlike<T>(x: seq<T>, y: seq<T>, z: seq<T>)
    ensures (x + y) + z == x + (y + z)
  {
  }

  // ----- what the notaries write passes

  /** Every record object is retained, as a store under a lock has it. */
  ghost predicate AllRetained(objects: map<int, seq<Entry>>)
  {
    forall h, i :: h in objects && 0 <= i < |objects[h]| && objects[h][i].Object? ==> objects[h][i].retain > 0
  }

  lemma {:induction false} RetentionCarries(objects: map<int, seq<Entry>>, first: int, hour: int)
    requires first <= hour && first in objects && objects[first] != [] && objects[first][0].Object?
    requires AllRetained(objects) && HeldBy(objects[first], true).problems == 0
    ensures UntilOf(objects, first, hour) > 0
    decreases hour - first
  {
    hide HeldBy;
    RetainsEach(objects[first], true, 0);
    if first < hour { RetentionCarries(objects, first, hour - 1); }
  }

  lemma RetentionCovers(objects: map<int, seq<Entry>>, first: int, hour: int)
    ensures HeldBy(ObjectsOf(objects, hour), true).retain <= UntilOf(objects, first, hour)
  {
    hide HeldBy;
  }

  /** The seal of a link of the chain breaks no rule but, if its key is not
      believed, that of the signature. */
  lemma LinkPasses(c: Setting, o: Check, b: Bucket, first: int, hour: int)
    requires c.profile != "" && c.tenant != ""
    requires hour in b.seals && Linked(c, b, first, hour)
    requires o.lock ==> UntilOf(b.objects, first, hour) > 0
    ensures SealFindings(c, o, ObjectsOf(b.objects, hour), hour, b.seals[hour], Lookup(b.seals, hour - 1))
         == When(!o.trusts(b.seals[hour].body), Signature)
  {
    hide HeldBy, UntilOf, Root;
    var objects := ObjectsOf(b.objects, hour);
    StrictIsLenient(objects);
    RetentionCovers(b.objects, first, hour);
  }

  /** Producer meets checker. In any state of any run, if some notary finished a
      run that it began no longer ago than the grace, a check of any range finds
      nothing missing, no broken chain, no changed root, no bad payload and no
      short lock: only a key that is not believed is left to complain of. */
  lemma NotaryMeetsChecker(c: Setting, states: seq<State>, n: nat, i: nat, o: Check, f: Finding)
    requires c.profile != "" && c.tenant != ""
    requires IsRun(c, states) && n < |states|
    requires i in states[n].runs && states[n].runs[i].Finished? && o.now - o.grace <= states[n].runs[i].start
    requires o.settle == c.settle && (o.lock ==> AllRetained(states[n].bucket.objects))
    requires f in RangeFindings(c, o, FirstKnown(states[n].bucket), states[n].bucket, o.from, o.to + 1)
    ensures f.Finding? && f.rule == Signature
    ensures f.hour in states[n].bucket.seals && !o.trusts(states[n].bucket.seals[f.hour].body)
  {
    hide RangeFindings, SealFindings, Chain, RunOk;
    var s := states[n];
    EveryStateKeeps(c, states, n);
    RangeHas(c, o, FirstKnown(s.bucket), s.bucket, o.from, o.to + 1, f);
    if f.hour in s.bucket.seals {
      SealedHourPasses(c, s.now, s.bucket, o, f.hour);
    } else {
      NothingIsMissing(c, s.now, s.bucket, s.runs[i], o, f.hour);
    }
  }

  lemma SealedHourPasses(c: Setting, now: int, b: Bucket, o: Check, hour: int)
    requires c.profile != "" && c.tenant != "" && Chain(c, now, b) && hour in b.seals
    requires o.lock ==> AllRetained(b.objects)
    ensures SealFindings(c, o, ObjectsOf(b.objects, hour), hour, b.seals[hour], Lookup(b.seals, hour - 1))
         == When(!o.trusts(b.seals[hour].body), Signature)
  {
    hide HeldBy, UntilOf, SealFindings, LastSealable;
    var first := First(b.objects);
    assert Linked(c, b, first, first) && Linked(c, b, first, hour);
    if o.lock { RetentionCarries(b.objects, first, hour); }
    LinkPasses(c, o, b, first, hour);
  }

  lemma NothingIsMissing(c: Setting, now: int, b: Bucket, r: Run, o: Check, hour: int)
    requires RunOk(c, now, b, r) && r.Finished? && o.now - o.grace <= r.start && o.settle == c.settle
    requires hour !in b.seals
    ensures !(FirstKnown(b).Some? && FirstKnown(b).value <= hour <= Due(o))
  {
    DueWasSealable(o.now, r.start, o.settle, o.grace);
    hide LastSealable;
  }

  // ----- an accepted chain fixes history

  ghost predicate Injective(hash: Hasher)
  {
    (forall x, y :: hash(x) == hash(y) ==> x == y) && forall x :: hash(x) != ""
  }

  /** A check of a range that broke no rule. */
  ghost predicate Passes(c: Setting, o: Check, b: Bucket)
  {
    forall h :: o.from <= h <= o.to ==> HourFindings(c, o, FirstKnown(b), b, h) == []
  }

  lemma PassesMeansNoFindings(c: Setting, o: Check, b: Bucket)
    ensures Passes(c, o, b) <==> RangeFindings(c, o, FirstKnown(b), b, o.from, o.to + 1) == []
  {
    hide HourFindings, RangeFindings;
    var all := RangeFindings(c, o, FirstKnown(b), b, o.from, o.to + 1);
    if Passes(c, o, b) {
      if all != [] {
        RangeHas(c, o, FirstKnown(b), b, o.from, o.to + 1, all[0]);
        assert false;
      }
    } else {
      var h :| o.from <= h <= o.to && HourFindings(c, o, FirstKnown(b), b, h) != [];
      RangeHas(c, o, FirstKnown(b), b, o.from, o.to + 1, Finding(HourFindings(c, o, FirstKnown(b), b, h)[0], h));
    }
  }

  /** What a seal that passes says: it is readable, it chains to what is before
      it, and it describes the objects that are there. */
  lemma PassedSeal(c: Setting, o: Check, b: Bucket, h: int)
    requires Passes(c, o, b) && o.from <= h <= o.to && h in b.seals
    ensures b.seals[h].body.Signed?
    ensures !BrokenLink(c.hash, b.seals[h].body.seal, Lookup(b.seals, h - 1))
    ensures !Changed(HeldBy(ObjectsOf(b.objects, h), false), b.seals[h].body.seal)
  {
    hide HeldBy, Changed, BrokenLink, Root;
    assert HourFindings(c, o, FirstKnown(b), b, h) == [];
  }

  /** Two buckets whose checks pass and that hold the same newest seal hold the
      same seal, or none, for every hour back to the one before the range, as
      far as the first is sealed without a gap. */
  lemma {:induction false} HistoryIsFixed(c: Setting, o: Check, p: Check, a: Bucket, b: Bucket, h: int)
    requires Injective(c.hash) && o.from == p.from && o.to == p.to
    requires Passes(c, o, a) && Passes(c, p, b)
    requires o.to in a.seals && o.to in b.seals && a.seals[o.to].body == b.seals[o.to].body
    requires o.from - 1 <= h <= o.to && forall g :: h < g <= o.to ==> g in a.seals
    ensures Lookup(a.seals, h) == Lookup(b.seals, h)
    decreases o.to - h
  {
    hide Passes;
    if h < o.to {
      HistoryIsFixed(c, o, p, a, b, h + 1);
      PassedSeal(c, o, a, h + 1);
      PassedSeal(c, p, b, h + 1);
    }
  }

  /** A check that asks no more passes what was passed. */
  lemma PassesLess(c: Setting, o: Check, p: Check, objects: seq<Entry>, hour: int, stored: Stored, prev: Option<Body>)
    requires SealFindings(c, o, objects, hour, stored, prev) == [] && (p.lock ==> o.lock)
    requires o.trusts(stored.body) ==> p.trusts(stored.body)
    ensures SealFindings(c, p, objects, hour, stored, prev) == []
    ensures c.profile != "" && c.tenant != ""
  {
    hide HeldBy, Changed, BrokenLink;
  }

  lemma NotYetDue(o: Check, from: int)
    ensures Due(o.(now := (from - 2) * HOUR)) < from
  {
    Monotonic((from - 2) * HOUR - (o.settle + o.grace), (from - 2) * HOUR);
  }

  /** A first seal of an hour, of what the hour holds, kept longer than that. */
  function Added(c: Setting, a: Bucket, h: int, signature: nat): Stored
  {
    var held := HeldBy(ObjectsOf(a.objects, h), false);
    Stored(Signed(NewSeal(c.profile, c.tenant, h, held, "", (h + 1) * HOUR), signature), held.retain + 1)
  }

  /** The bucket that differs at an hour below a gap: what is above the gap, and
      at the hour nothing, or a seal where there was none. */
  function Otherwise(c: Setting, a: Bucket, h: int, gap: int, signature: nat): Bucket
  {
    var above := map g | g in a.seals && gap < g :: a.seals[g];
    a.(seals := if h in a.seals then above else above[h := Added(c, a, h, signature)])
  }

  lemma OtherwiseLooks(c: Setting, a: Bucket, h: int, gap: int, signature: nat, g: int)
    requires h < gap && gap !in a.seals
    ensures var b := Otherwise(c, a, h, gap, signature);
            && b.objects == a.objects && FirstKnown(b) == FirstKnown(a)
            && Lookup(b.seals, h) != Lookup(a.seals, h) && Lookup(b.seals, h - 1) == None
            && (g in b.seals ==> gap < g || (g == h && h !in a.seals && b.seals[h] == Added(c, a, h, signature)))
            && (gap < g ==> (g in b.seals <==> g in a.seals))
            && (gap < g && g in a.seals ==>
                  b.seals[g] == a.seals[g] && Lookup(b.seals, g - 1) == Lookup(a.seals, g - 1))
  {
    hide Added;
  }

  /** It passes a check that asks no more, if the seal that was added is believed
      and none of the hours up to the gap is due in it. */
  lemma OtherwisePasses(c: Setting, o: Check, p: Check, a: Bucket, h: int, gap: int, signature: nat)
    requires Passes(c, o, a) && o.from - 1 <= h < gap < o.to && gap !in a.seals && o.to in a.seals
    requires p.from == o.from && p.to == o.to && (p.lock ==> o.lock) && forall x :: o.trusts(x) ==> p.trusts(x)
    requires h in a.seals || p.trusts(Added(c, a, h, signature).body)
    requires Due(p) < o.from || (Due(p) == Due(o) && (FirstKnown(a).Some? ==> gap < FirstKnown(a).value))
    ensures Passes(c, p, Otherwise(c, a, h, gap, signature))
  {
    hide SealFindings, Due, FirstKnown, Otherwise, Added;
    var b := Otherwise(c, a, h, gap, signature);
    assert HourFindings(c, o, FirstKnown(a), a, o.to) == [];
    PassesLess(c, o, p, ObjectsOf(a.objects, o.to), o.to, a.seals[o.to], Lookup(a.seals, o.to - 1));
    forall g | o.from <= g <= o.to ensures HourFindings(c, p, FirstKnown(b), b, g) == [] {
      OtherwiseLooks(c, a, h, gap, signature, g);
      assert HourFindings(c, o, FirstKnown(a), a, g) == [];
      if g in b.seals && gap < g {
        PassesLess(c, o, p, ObjectsOf(a.objects, g), g, a.seals[g], Lookup(a.seals, g - 1));
      } else if g in b.seals {
        AddedPasses(c, p, a, h, signature);
      }
    }
  }

  lemma AddedPasses(c: Setting, p: Check, a: Bucket, h: int, signature: nat)
    requires c.profile != "" && c.tenant != "" && p.trusts(Added(c, a, h, signature).body)
    ensures SealFindings(c, p, ObjectsOf(a.objects, h), h, Added(c, a, h, signature), None) == []
  {
    hide HeldBy, Root;
    SecondsOf((h + 1) * 3600);
  }

  /** Another bucket that passes a check of the same range with the same newest
      seal. */
  ghost predicate AlsoPasses(c: Setting, o: Check, a: Bucket, p: Check, b: Bucket)
    requires o.to in a.seals
  {
    p.from == o.from && p.to == o.to && Passes(c, p, b) && o.to in b.seals && b.seals[o.to].body == a.seals[o.to].body
  }

  /** What a passed check and its newest seal fix, exactly: an hour's seal, or
      that it has none, is the same in every other bucket that passes with that
      seal if and only if every hour after it in the range is sealed. */
  lemma HistoryIsFixedExactly(c: Setting, o: Check, a: Bucket, h: int)
    requires Injective(c.hash) && Passes(c, o, a) && o.to in a.seals && o.from - 1 <= h <= o.to
    ensures (forall p, b :: AlsoPasses(c, o, a, p, b) ==> Lookup(b.seals, h) == Lookup(a.seals, h))
       <==> forall g :: h < g <= o.to ==> g in a.seals
  {
    hide Passes;
    if gap :| h < gap <= o.to && gap !in a.seals {
      var p := o.(now := (o.from - 2) * HOUR, lock := false, trusts := _ => true);
      NotYetDue(o.(lock := false, trusts := _ => true), o.from);
      OtherwisePasses(c, o, p, a, h, gap, 0);
      OtherwiseLooks(c, a, h, gap, 0, o.to);
      var b := Otherwise(c, a, h, gap, 0);
      assert AlsoPasses(c, o, a, p, b) && Lookup(b.seals, h) != Lookup(a.seals, h);
    } else {
      forall p, b | AlsoPasses(c, o, a, p, b) ensures Lookup(b.seals, h) == Lookup(a.seals, h) {
        HistoryIsFixed(c, o, p, a, b, h);
      }
    }
  }

  /** The same of one check, with its moment, its lock and the keys it believes,
      over a range that is all due: for an hour that is sealed, or for which some
      first seal would be believed. */
  lemma HistoryUnderOneCheck(c: Setting, o: Check, a: Bucket, h: int)
    requires Injective(c.hash) && Passes(c, o, a) && o.to in a.seals && o.from - 1 <= h <= o.to && o.to <= Due(o)
    requires h in a.seals || exists signature :: o.trusts(Added(c, a, h, signature).body)
    ensures (forall b :: AlsoPasses(c, o, a, o, b) ==> Lookup(b.seals, h) == Lookup(a.seals, h))
       <==> forall g :: h < g <= o.to ==> g in a.seals
  {
    hide Passes, FirstKnown, Due, Added;
    if gap :| h < gap <= o.to && gap !in a.seals {
      var signature :| h in a.seals || o.trusts(Added(c, a, h, signature).body);
      if FirstKnown(a).Some? && FirstKnown(a).value <= gap {
        NoneIsMissing(c, o, a, gap);
      }
      OtherwisePasses(c, o, o, a, h, gap, signature);
      OtherwiseLooks(c, a, h, gap, signature, o.to);
      var b := Otherwise(c, a, h, gap, signature);
      assert AlsoPasses(c, o, a, o, b) && Lookup(b.seals, h) != Lookup(a.seals, h);
    } else {
      forall b | AlsoPasses(c, o, a, o, b) ensures Lookup(b.seals, h) == Lookup(a.seals, h) {
        HistoryIsFixed(c, o, o, a, b, h);
      }
    }
  }

  /** Where the tenant had begun by the start of the range and every hour of it
      is due, nothing in the range can differ: the same seals hour by hour, and
      so the same records, their number, their first and last object, and each
      record's hash in its place. */
  lemma RecordsAreFixed(c: Setting, o: Check, p: Check, a: Bucket, b: Bucket, h: int)
    requires Injective(c.hash) && o.from == p.from && o.to == p.to
    requires Passes(c, o, a) && Passes(c, p, b)
    requires o.to in a.seals && o.to in b.seals && a.seals[o.to].body == b.seals[o.to].body
    requires FirstKnown(a).Some? && FirstKnown(a).value <= o.from && o.to <= Due(o)
    requires o.from <= h <= o.to
    ensures h in a.seals && h in b.seals && a.seals[h].body == b.seals[h].body
    ensures var x, y := HeldBy(ObjectsOf(a.objects, h), false), HeldBy(ObjectsOf(b.objects, h), false);
            x.count == y.count && x.first == y.first && x.last == y.last && x.leaves == y.leaves
  {
    hide Passes, HeldBy;
    forall g | o.from <= g <= o.to ensures g in a.seals { NoneIsMissing(c, o, a, g); }
    HistoryIsFixed(c, o, p, a, b, h);
    PassedSeal(c, o, a, h);
    PassedSeal(c, p, b, h);
    HeldLeaves(ObjectsOf(a.objects, h), false);
    HeldLeaves(ObjectsOf(b.objects, h), false);
    hide Root;
    RootBinds(HeldBy(ObjectsOf(a.objects, h), false).leaves, HeldBy(ObjectsOf(b.objects, h), false).leaves);
  }

  lemma NoneIsMissing(c: Setting, o: Check, b: Bucket, g: int)
    requires Passes(c, o, b) && o.from <= g <= o.to
    requires FirstKnown(b).Some? && FirstKnown(b).value <= g <= Due(o)
    ensures g in b.seals
  {
    hide FirstKnown, Due, SealFindings;
    assert HourFindings(c, o, FirstKnown(b), b, g) == [];
  }

  // ----- what a check does not see

  /** Before the hour of the tenant's first object a check takes seals as it
      finds them: a bucket with a signed seal of an empty hour there, and the
      same bucket without it, pass the same check with the same newest seal. So
      `RecordsAreFixed` needs the range to begin no sooner than the tenant. */
  lemma EarlierSealsGoUnnoticed(c: Setting)
    requires c.profile != "" && c.tenant != ""
    ensures exists o, a, b: Bucket ::
              && Passes(c, o, a) && Passes(c, o, b) && o.to in a.seals && o.to in b.seals
              && a.seals[o.to] == b.seals[o.to] && FirstKnown(a) == FirstKnown(b) == Some(o.to)
              && Lookup(a.seals, o.from) != Lookup(b.seals, o.from)
  {
    hide LastSealable, HeldBy, SealFindings, Root, NewSeal, Passes;
    var batch := Object("k", 1, 1, Some([Line(Some("r"), true)]), 0);
    var objects := map[5 := [batch]];
    var o := Check(3, 5, 0, 0, 0, false, _ => true);
    var at := 6 * HOUR;
    SecondsOf(6 * 3600);
    var held, none := HeldBy([batch], false), HeldBy([], false);
    var newest := Stored(Signed(NewSeal(c.profile, c.tenant, 5, held, "", at), 0), 1);
    var early := Stored(Signed(NewSeal(c.profile, c.tenant, 3, none, "", at), 0), 1);
    var a, b := Bucket(objects, false, map[3 := early, 5 := newest]), Bucket(objects, false, map[5 := newest]);
    assert objects.Keys == {5} && First(objects) == 5;
    SealPasses(c, o, [batch], 5, held, at);
    SealPasses(c, o, [], 3, none, at);
    ThreeHours(c, o, a, 5);
    ThreeHours(c, o, b, 5);
  }

  lemma ThreeHours(c: Setting, o: Check, b: Bucket, first: int)
    requires FirstKnown(b) == Some(first) && o.from == first - 2 && o.to == first
    requires first - 1 !in b.seals && first in b.seals
    requires SealFindings(c, o, ObjectsOf(b.objects, first), first, b.seals[first], None) == []
    requires first - 3 !in b.seals
    requires first - 2 in b.seals ==>
               SealFindings(c, o, ObjectsOf(b.objects, first - 2), first - 2, b.seals[first - 2], None) == []
    ensures Passes(c, o, b)
  {
    hide SealFindings, ObjectsOf, Due;
  }

  lemma SecondsOf(n: int)
    ensures n * SECOND / SECOND * SECOND == n * SECOND
  {
  }

  lemma SealPasses(c: Setting, o: Check, objects: seq<Entry>, hour: int, held: Held, at: int)
    requires c.profile != "" && c.tenant != "" && held == HeldBy(objects, false)
    requires (hour + 1) * HOUR <= at / SECOND * SECOND && !o.lock
    ensures var body := Signed(NewSeal(c.profile, c.tenant, hour, held, "", at), 0);
            o.trusts(body) ==> SealFindings(c, o, objects, hour, Stored(body, 1), None) == []
  {
    hide HeldBy, Root;
  }
}
