/** When a check of seals reports what: each rule, in terms of the stored seal, the
    objects of its hour and the seal before, and a missing seal by the moment. */
module SealRules {
  import opened Options
  import opened Merkle
  import opened Seals
  import opened SealProtocol
  import opened SealReading
  import opened SealChecker

  /** A statement that can be read: one of a profile and a tenant. */
  predicate Readable(b: Body)
  {
    b.Signed? && b.seal.profile != "" && b.seal.tenant != ""
  }

  function Six(a: bool, b: bool, s: bool, l: bool, r: bool, k: bool): seq<Rule>
  {
    When(a, Payload) + When(b, Payload) + When(s, Signature) + When(l, ChainRule) + When(r, RootRule)
    + When(k, LockRule)
  }

  lemma SixRules(a: bool, b: bool, s: bool, l: bool, r: bool, k: bool)
    ensures var f := Six(a, b, s, l, r, k);
            && (Payload in f <==> a || b) && (Signature in f <==> s) && (ChainRule in f <==> l)
            && (RootRule in f <==> r) && (LockRule in f <==> k) && Jws !in f && Missing !in f
  {
    Has(a, Payload);
    Has(b, Payload);
    Has(s, Signature);
    Has(l, ChainRule);
    Has(r, RootRule);
    Has(k, LockRule);
    hide When;
  }

  lemma Has(bad: bool, rule: Rule)
    ensures forall x :: x in When(bad, rule) <==> bad && x == rule
  {
  }

  /** The rules of a seal that can be read, one by one. */
  lemma RulesAre(c: Setting, o: Check, objects: seq<Entry>, hour: int, stored: Stored, prev: Option<Body>)
    requires Readable(stored.body)
    ensures var f, s, now := SealFindings(c, o, objects, hour, stored, prev), stored.body.seal, HeldBy(objects, false);
            && Jws !in f && Missing !in f
            && (Payload in f <==>
                  s.profile != c.profile || s.tenant != c.tenant || s.hour != hour || s.sealedAt < (hour + 1) * HOUR)
            && (Signature in f <==> !o.trusts(stored.body)) && (ChainRule in f <==> BrokenLink(c.hash, s, prev))
            && (RootRule in f <==> Changed(now, s))
            && (LockRule in f <==> o.lock && (stored.retain == 0 || stored.retain < now.retain))
  {
    hide *;
    FindingsAreSix(c, o, objects, hour, stored, prev);
    var s, now := stored.body.seal, HeldBy(objects, false);
    SixRules(s.profile != c.profile || s.tenant != c.tenant || s.hour != hour, s.sealedAt < (hour + 1) * HOUR,
             !o.trusts(stored.body), BrokenLink(c.hash, s, prev), Changed(now, s),
             o.lock && (stored.retain == 0 || stored.retain < now.retain));
  }

  lemma FindingsAreSix(c: Setting, o: Check, objects: seq<Entry>, hour: int, stored: Stored, prev: Option<Body>)
    requires Readable(stored.body)
    ensures stored.body.Signed?
    ensures var s, now := stored.body.seal, HeldBy(objects, false);
            SealFindings(c, o, objects, hour, stored, prev) ==
            Six(s.profile != c.profile || s.tenant != c.tenant || s.hour != hour, s.sealedAt < (hour + 1) * HOUR,
                !o.trusts(stored.body), BrokenLink(c.hash, s, prev), Changed(now, s),
                o.lock && (stored.retain == 0 || stored.retain < now.retain))
  {
    hide HeldBy, Changed, BrokenLink, When;
  }

  /** What cannot be read is reported as that alone: as no token, or as no seal. */
  lemma UnreadableIsReported(c: Setting, o: Check, objects: seq<Entry>, hour: int, stored: Stored, prev: Option<Body>)
    ensures SealFindings(c, o, objects, hour, stored, prev) == [Jws] <==> stored.body.BadToken?
    ensures !Readable(stored.body) && !stored.body.BadToken? ==>
            SealFindings(c, o, objects, hour, stored, prev) == [Payload]
  {
    if Readable(stored.body) {
      RulesAre(c, o, objects, hour, stored, prev);
      hide SealFindings;
      assert Jws in [Jws];
    }
  }

  /** A seal that can be read breaks the rule of what it says exactly when it says
      another profile, tenant or hour, or a moment before the hour ended; that of
      its signature exactly when it is not believed; and that of the chain exactly
      when it names something else than the hash of the seal before, or anything
      where there is none. */
  lemma StatementRules(c: Setting, o: Check, objects: seq<Entry>, hour: int, stored: Stored, prev: Option<Body>)
    requires Readable(stored.body)
    ensures var f, s := SealFindings(c, o, objects, hour, stored, prev), stored.body.seal;
            && Jws !in f && Missing !in f
            && (Payload in f <==>
                  || s.profile != c.profile || s.tenant != c.tenant || s.hour != hour
                  || s.sealedAt < (hour + 1) * 3_600_000_000_000)
            && (Signature in f <==> !o.trusts(stored.body))
            && (ChainRule in f <==> if prev.None? then s.prev != "" else s.prev != c.hash(prev.value))
  {
    RulesAre(c, o, objects, hour, stored, prev);
    hide SealFindings, HeldBy, Changed;
  }

  /** It breaks that of the root exactly when the objects of the hour that decode
      do not come to what it says: so many records and, when it says so, objects,
      between those keys, with those hashes in their order. */
  lemma RootRules(c: Setting, o: Check, objects: seq<Entry>, hour: int, stored: Stored, prev: Option<Body>)
    requires Readable(stored.body) && forall i :: 0 <= i < |objects| ==> objects[i].key != ""
    ensures var f, s, d := SealFindings(c, o, objects, hour, stored, prev), stored.body.seal, Decoded(objects);
            RootRule in f <==>
              || s.count != |AllLines(d)| || (s.objects.Some? && s.objects.value != |d|)
              || s.first != (if d == [] then "" else d[0].key) || s.last != (if d == [] then "" else d[|d| - 1].key)
              || s.root != Root(Hashes(AllLines(d), false))
  {
    hide SealFindings, HeldBy, Decoded, AllLines, Hashes, RetainsLongest, Root;
    RulesAre(c, o, objects, hour, stored, prev);
    ReadingIs(objects, false);
  }

  /** And that of the lock exactly when the profile demands one and the seal has no
      retention, or some object of the hour that decodes is retained longer. */
  lemma LockRules(c: Setting, o: Check, objects: seq<Entry>, hour: int, stored: Stored, prev: Option<Body>)
    requires Readable(stored.body) && forall i :: 0 <= i < |objects| ==> objects[i].key != ""
    ensures var f, d := SealFindings(c, o, objects, hour, stored, prev), Decoded(objects);
            LockRule in f <==>
              o.lock && (stored.retain == 0 || exists i :: 0 <= i < |d| && d[i].Object? && d[i].retain > stored.retain)
  {
    hide SealFindings, HeldBy, Decoded, AllLines, Hashes, Changed;
    RulesAre(c, o, objects, hour, stored, prev);
    ReadingIs(objects, false);
  }

  /** A seal is missing exactly when the tenant had begun and the settle window and
      the grace have passed since the hour ended. */
  lemma MissingRule(c: Setting, o: Check, first: Option<int>, b: Bucket, hour: int)
    requires hour !in b.seals
    ensures Missing in HourFindings(c, o, first, b, hour) <==>
            && first.Some? && first.value <= hour
            && (hour + 1) * 3_600_000_000_000 + o.settle + o.grace <= o.now
    ensures forall rule :: rule in HourFindings(c, o, first, b, hour) ==> rule == Missing
  {
    SealableIs(hour, o.now, o.settle + o.grace);
    hide LastSealable;
  }

  ghost function SealedIn(b: Bucket, from: int, end: int): set<int>
  {
    set h | h in b.seals && from <= h < end
  }

  lemma OneMoreSealed(b: Bucket, from: int, hour: int)
    requires from <= hour
    ensures |SealedIn(b, from, hour + 1)| == |SealedIn(b, from, hour)| + (if hour in b.seals then 1 else 0)
    ensures SealedIn(b, from, from) == {}
  {
    var was, now := SealedIn(b, from, hour), SealedIn(b, from, hour + 1);
    assert now == if hour in b.seals then was + {hour} else was;
  }

  ghost predicate IsClean(c: Setting, o: Check, first: Option<int>, b: Bucket, from: int, end: int, clean: seq<int>)
  {
    && (forall h :: h in clean <==> from <= h < end && h in b.seals && HourFindings(c, o, first, b, h) == [])
    && (forall i, j :: 0 <= i < j < |clean| ==> clean[i] < clean[j])
  }

  lemma OneMoreClean(c: Setting, o: Check, first: Option<int>, b: Bucket, from: int, hour: int, clean: seq<int>)
    requires from <= hour && IsClean(c, o, first, b, from, hour, clean)
    ensures IsClean(c, o, first, b, from, hour + 1,
                    if hour in b.seals && HourFindings(c, o, first, b, hour) == [] then clean + [hour] else clean)
  {
    hide HourFindings;
    assert forall i :: 0 <= i < |clean| ==> clean[i] in clean;
    var more := clean + [hour];
    assert more[|clean|] == hour && forall h :: h in more <==> h in clean || h == hour;
  }

  /** The seals counted are those of the range, and the clean hours are exactly the
      sealed ones that break no rule, in order. */
  lemma {:induction false} CleanIsWithoutFault(c: Setting, o: Check, first: Option<int>, b: Bucket, from: int, end: int)
    ensures var (n, clean) := SealedHours(c, o, first, b, from, end);
            n == |SealedIn(b, from, end)| && IsClean(c, o, first, b, from, end, clean)
    decreases end - from
  {
    hide HourFindings;
    if from < end {
      hide SealedHours, IsClean, SealedIn;
      CleanIsWithoutFault(c, o, first, b, from, end - 1);
      NextHour(c, o, first, b, from, end - 1);
      OneMoreSealed(b, from, end - 1);
      OneMoreClean(c, o, first, b, from, end - 1, SealedHours(c, o, first, b, from, end - 1).1);
    } else {
      assert SealedIn(b, from, end) == {};
    }
  }
}
