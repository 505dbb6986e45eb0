/** How a run of a notary ends, in terms of the objects and seals it finds: which
    hours it seals, where it stops and why, and what it reports. */
module NotaryOutcome {
  import opened Options
  import Merkle
  import opened Seals
  import opened SealProtocol
  import opened SealReading
  import opened Notary

  /** Every key of an hour is a record object that reads without a problem. An hour
      without any is one of these. */
  predicate Sound(objects: map<int, seq<Entry>>, h: int)
  {
    CleanEntries(ObjectsOf(objects, h), true)
  }

  /** A run from one hour on sealed every hour up to another and no other, and
      changed nothing else. */
  ghost predicate Sealed(r: Result, a: Result, from: int, end: int)
  {
    && a.bucket.objects == r.bucket.objects && a.bucket.strayFirst == r.bucket.strayFirst
    && (forall h :: h in a.bucket.seals <==> h in r.bucket.seals || from <= h <= end)
    && (forall h :: h in r.bucket.seals ==> h in a.bucket.seals && a.bucket.seals[h] == r.bucket.seals[h])
    && a.newest == (if from <= end then Some(end) else r.newest)
  }

  ghost function Already(seals: map<int, Stored>, from: int, end: int): set<int>
  {
    set h | h in seals && from <= h <= end
  }

  /** A list that goes on from another with the hours of a range that had no seal,
      in order. */
  ghost predicate Lists(was: seq<int>, now: seq<int>, seals: map<int, Stored>, from: int, end: int)
  {
    && was <= now
    && (forall h :: h in now[|was|..] <==> from <= h <= end && h !in seals)
    && (forall i, j :: |was| <= i < j < |now| ==> now[i] < now[j])
  }

  /** It reports the hours it sealed, in order, and how many it found sealed. */
  ghost predicate Reported(r: Result, a: Result, from: int, end: int)
  {
    && Lists(r.sealed, a.sealed, r.bucket.seals, from, end)
    && a.present == r.present + |Already(r.bucket.seals, from, end)|
  }

  /** The last hour a run gets to. */
  function EndOf(a: Result, last: int): int
  {
    if a.outcome.Problems? then a.outcome.hour - 1 else last
  }

  function Next(c: Setting, q: Inputs, r: Result, hour: int, prev: string, retain: nat): Result
  {
    if hour in r.bucket.seals then r.(present := r.present + 1, newest := Some(hour))
    else
      var held := HeldBy(ObjectsOf(r.bucket.objects, hour), true);
      var body := Notary.Statement(c, q, r.bucket, hour, prev);
      var stored := Stored(body, if held.retain == 0 then retain else held.retain);
      r.(bucket := r.bucket.(seals := r.bucket.seals[hour := stored]),
         sealed := r.sealed + [hour], newest := Some(hour))
  }

  lemma LoopStep(c: Setting, q: Inputs, r: Result, hour: int, last: int, prev: string, retain: nat)
    returns (link: string, kept: nat)
    requires hour <= last
    ensures Loop(c, q, r, hour, last, prev, retain) ==
            if Sound(r.bucket.objects, hour) then
              Loop(c, q, Next(c, q, r, hour, prev, retain), hour + 1, last, link, kept)
            else r.(outcome := Problems(hour))
  {
    NoProblemIsClean(ObjectsOf(r.bucket.objects, hour), true);
    var held := HeldBy(ObjectsOf(r.bucket.objects, hour), true);
    kept := if held.retain == 0 then retain else held.retain;
    link := c.hash(if hour in r.bucket.seals then r.bucket.seals[hour].body
                   else Notary.Statement(c, q, r.bucket, hour, prev));
    hide HeldBy, Notary.Statement, CleanEntries;
  }

  /** A run seals every hour up to the first that has a key that is no record
      object, or does not decode, or whose metadata disagrees, or with a line that
      states no hash or not its own; it ends without fault exactly when there is
      no such hour, and otherwise says which it is. */
  lemma {:induction false} RunSealsWhatItCan(c: Setting, q: Inputs, r: Result, hour: int, last: int, prev: string,
                                              retain: nat)
    ensures var a := Loop(c, q, r, hour, last, prev, retain);
            && (a.outcome == Done || a.outcome.Problems?)
            && (a.outcome == Done <==> forall h :: hour <= h <= last ==> Sound(r.bucket.objects, h))
            && (a.outcome.Problems? ==>
                  && hour <= a.outcome.hour <= last && !Sound(r.bucket.objects, a.outcome.hour)
                  && forall h :: hour <= h < a.outcome.hour ==> Sound(r.bucket.objects, h))
            && Sealed(r, a, hour, EndOf(a, last))
    decreases last - hour
  {
    hide Sound, Next;
    if hour <= last {
      var link, kept := LoopStep(c, q, r, hour, last, prev, retain);
      if Sound(r.bucket.objects, hour) {
        var b := Next(c, q, r, hour, prev, retain);
        hide Loop;
        NextSeals(c, q, r, hour, prev, retain);
        RunSealsWhatItCan(c, q, b, hour + 1, last, link, kept);
        var a := Loop(c, q, r, hour, last, prev, retain);
        SealedOn(r, b, a, hour, EndOf(a, last));
      }
    }
  }

  lemma NextSeals(c: Setting, q: Inputs, r: Result, hour: int, prev: string, retain: nat)
    ensures var b := Next(c, q, r, hour, prev, retain);
            && Sealed(r, b, hour, hour)
            && b.sealed == (if hour in r.bucket.seals then r.sealed else r.sealed + [hour])
            && b.present == r.present + (if hour in r.bucket.seals then 1 else 0)
  {
    hide HeldBy, Notary.Statement;
  }

  lemma SealedOn(r: Result, b: Result, a: Result, hour: int, end: int)
    requires Sealed(r, b, hour, hour) && Sealed(b, a, hour + 1, end) && hour <= end
    ensures Sealed(r, a, hour, end)
  {
  }

  lemma ListsOn(x: seq<int>, z: seq<int>, seals: map<int, Stored>, more: map<int, Stored>, hour: int, end: int)
    requires hour <= end && forall h :: hour < h ==> (h in more <==> h in seals)
    requires Lists(if hour in seals then x else x + [hour], z, more, hour + 1, end)
    ensures Lists(x, z, seals, hour, end)
  {
    if hour !in seals {
      GoesOn(x, z, hour);
      var n := |x|;
      assert forall h :: h in z[n..] <==> h == hour || h in z[n + 1..];
      forall i | n < i < |z| ensures hour < z[i] { assert z[n + 1..][i - n - 1] in z[n + 1..]; }
    }
  }

  lemma GoesOn(x: seq<int>, z: seq<int>, hour: int)
    requires x + [hour] <= z
    ensures x <= z && z[|x|] == hour && z[|x|..] == [hour] + z[|x| + 1..]
  {
    assert z[|x|] == (x + [hour])[|x|] && z[..|x|] == (x + [hour])[..|x|];
  }

  lemma AlreadyOn(seals: map<int, Stored>, more: map<int, Stored>, hour: int, end: int)
    requires hour <= end && forall h :: hour < h ==> (h in more <==> h in seals)
    ensures |Already(seals, hour, end)| == |Already(more, hour + 1, end)| + (if hour in seals then 1 else 0)
  {
    var rest := Already(more, hour + 1, end);
    assert Already(seals, hour, end) == if hour in seals then rest + {hour} else rest;
  }

  lemma ReportedOn(r: Result, b: Result, a: Result, hour: int, end: int)
    requires Sealed(r, b, hour, hour) && Reported(b, a, hour + 1, end) && hour <= end
    requires b.sealed == (if hour in r.bucket.seals then r.sealed else r.sealed + [hour])
    requires b.present == r.present + (if hour in r.bucket.seals then 1 else 0)
    ensures Reported(r, a, hour, end)
  {
    hide Lists, Already;
    ListsOn(r.sealed, a.sealed, r.bucket.seals, b.bucket.seals, hour, end);
    AlreadyOn(r.bucket.seals, b.bucket.seals, hour, end);
  }

  /** What a run reports of the hours it gets to: those it sealed, in order, and how
      many were sealed by another. */
  lemma {:induction false} RunReports(c: Setting, q: Inputs, r: Result, hour: int, last: int, prev: string, retain: nat)
    ensures var a := Loop(c, q, r, hour, last, prev, retain); Reported(r, a, hour, EndOf(a, last))
    decreases last - hour
  {
    hide Sound, Next, Sealed, Reported;
    RunSealsWhatItCan(c, q, r, hour, last, prev, retain);
    var a := Loop(c, q, r, hour, last, prev, retain);
    if last < hour {
      NothingReported(r, a, hour, last);
    } else {
      var link, kept := LoopStep(c, q, r, hour, last, prev, retain);
      hide Loop;
      if Sound(r.bucket.objects, hour) {
        var b := Next(c, q, r, hour, prev, retain);
        NextSeals(c, q, r, hour, prev, retain);
        RunReports(c, q, b, hour + 1, last, link, kept);
        assert hour <= EndOf(a, last);
        ReportedOn(r, b, a, hour, EndOf(a, last));
      } else {
        NothingReported(r, a, hour, hour - 1);
      }
    }
  }

  lemma NothingReported(r: Result, a: Result, hour: int, end: int)
    requires end < hour && a.sealed == r.sealed && a.present == r.present
    ensures Reported(r, a, hour, end)
  {
    assert Already(r.bucket.seals, hour, end) == {};
    assert a.sealed[|r.sealed|..] == [];
  }

  /** A run that chains onto a seal refuses it exactly when it does not read or says
      it covers something else; one without a seal to chain onto does nothing where
      there is no object, and refuses exactly when the first key is no record's. */
  lemma RunRefuses(c: Setting, q: Inputs, r: Result, tail: Option<int>, first: FirstKey, last: int)
    requires tail.Some? ==> tail.value in r.bucket.seals
    ensures var a := Whole(c, q, r, tail, first, last);
            && (a.outcome.Unchainable? <==>
                  && tail.Some?
                  && var body := r.bucket.seals[tail.value].body;
                     !(body.Signed? && body.seal.profile == c.profile != "" && body.seal.tenant == c.tenant != ""
                       && body.seal.hour == tail.value))
            && (a.outcome.Unchainable? ==> a.outcome.tail == tail.value)
            && (a.outcome.FirstIsNoRecord? <==> tail.None? && first.NotARecord?)
            && (a.outcome.Unchainable? || a.outcome.FirstIsNoRecord? || (tail.None? && first.NoKey?) ==>
                  a.bucket == r.bucket && a.sealed == r.sealed && a.present == r.present && a.newest == None)
            && (tail.None? && first.NoKey? ==> a.outcome == Done)
  {
    match tail
    case Some(at) =>
      var stored := r.bucket.seals[at];
      RunSealsWhatItCan(c, q, r.(newest := Some(at)), at + 1, last, c.hash(stored.body), stored.retain);
      hide Loop, Sealed, Sound;
    case None =>
      if first.RecordOf? {
        RunSealsWhatItCan(c, q, r.(newest := None), first.hour, last, "", 0);
        hide Loop, Sealed, Sound;
      }
  }

  /** A seal is kept as long as the objects of its hour or, where they have no
      retention, of the latest hour before that has one. */
  lemma {:induction false} KeptAsLong(objects: map<int, seq<Entry>>, first: int, hour: int)
    requires first <= hour
    ensures var until := UntilOf(objects, first, hour);
            if until == 0 then forall h :: first <= h <= hour ==> HeldBy(ObjectsOf(objects, h), true).retain == 0
            else exists g :: && first <= g <= hour && HeldBy(ObjectsOf(objects, g), true).retain == until
                             && forall h :: g < h <= hour ==> HeldBy(ObjectsOf(objects, h), true).retain == 0
    decreases hour - first
  {
    hide HeldBy, ObjectsOf;
    if HeldBy(ObjectsOf(objects, hour), true).retain == 0 && first < hour {
      KeptAsLong(objects, first, hour - 1);
    }
  }

  /** A run that is not refused seals from the hour after the one it chains onto, or
      from that of the first record, and up to the first hour that does not read. */
  lemma RunSealsFrom(c: Setting, q: Inputs, r: Result, tail: Option<int>, first: FirstKey, last: int)
    requires tail.Some? ==> tail.value in r.bucket.seals
    requires tail.None? ==> first.RecordOf?
    ensures var a := Whole(c, q, r, tail, first, last);
            var from := if tail.Some? then tail.value + 1 else first.hour;
            !a.outcome.Unchainable? ==>
              && Sealed(r.(newest := tail), a, from, EndOf(a, last)) && Reported(r, a, from, EndOf(a, last))
              && (a.outcome == Done <==> forall h :: from <= h <= last ==> Sound(r.bucket.objects, h))
  {
    hide Loop, Sealed, Reported, Sound;
    match tail
    case Some(at) =>
      var stored := r.bucket.seals[at];
      RunSealsWhatItCan(c, q, r.(newest := tail), at + 1, last, c.hash(stored.body), stored.retain);
      RunReports(c, q, r.(newest := tail), at + 1, last, c.hash(stored.body), stored.retain);
      ReportsAlike(r, r.(newest := tail), Whole(c, q, r, tail, first, last), at + 1, last);
    case None =>
      RunSealsWhatItCan(c, q, r.(newest := None), first.hour, last, "", 0);
      RunReports(c, q, r.(newest := None), first.hour, last, "", 0);
      ReportsAlike(r, r.(newest := None), Whole(c, q, r, tail, first, last), first.hour, last);
  }

  lemma ReportsAlike(r: Result, s: Result, a: Result, from: int, last: int)
    requires s == r.(newest := s.newest)
    ensures Reported(s, a, from, EndOf(a, last)) ==> Reported(r, a, from, EndOf(a, last))
  {
  }

  /** What a seal in the chain says: its tenant's profile and name and its hour, every
      object of the hour that decodes, how many records they have and the root over
      their hashes, first and last key, and a whole second after the hour. */
  lemma SealSays(c: Setting, objects: map<int, seq<Entry>>, hour: int, prev: string, body: Body)
    requires States(c, objects, hour, prev, body)
    requires forall e :: e in ObjectsOf(objects, hour) ==> e.key != ""
    ensures var entries := ObjectsOf(objects, hour);
            && CleanEntries(entries, true) && body.Signed?
            && var s := body.seal;
               && s.profile == c.profile && s.tenant == c.tenant && s.hour == hour && s.prev == prev
               && s.count == |AllLines(entries)| && s.root == Merkle.Root(Hashes(AllLines(entries), true))
               && s.objects == (if entries == [] then None else Some(|entries|))
               && s.first == (if entries == [] then "" else entries[0].key)
               && s.last == (if entries == [] then "" else entries[|entries| - 1].key)
               && s.sealedAt % 1_000_000_000 == 0 && (hour + 1) * 3_600_000_000_000 <= s.sealedAt
  {
    var entries := ObjectsOf(objects, hour);
    assert forall i :: 0 <= i < |entries| ==> entries[i] in entries;
    NoProblemIsClean(entries, true);
    ReadingIs(entries, true);
    hide HeldBy, CleanEntries, Decoded, AllLines, Hashes, RetainsLongest, ObjectsOf, Merkle.Root;
    CleanIsDecoded(entries, true);
    var held := HeldBy(entries, true);
    var at :| body.seal == NewSeal(c.profile, c.tenant, hour, held, prev, at);
    WholeSecond(at);
  }

  lemma WholeSecond(at: int)
    ensures at / SECOND * SECOND % 1_000_000_000 == 0
  {
  }
}
