/** Listings of a store's keys, and the walks that page through a range of hours:
    `WalkHours` and `WalkSeals`. A store is the sequence of its keys in order. */
module Walk {
  import opened Lex
  import opened Calendar
  import opened Layout

  const PAGE_SIZE := 1000

  /** The keys under a prefix that sort after a key, in order. */
  function Under(keys: seq<string>, prefix: string, after: string): (r: seq<string>)
    ensures forall k :: k in r <==> k in keys && HasPrefix(k, prefix) && Less(after, k)
    ensures Increasing(keys) ==> Increasing(r)
  {
    if keys == [] then []
    else
      var k := keys[0];
      var rest := Under(keys[1..], prefix, after);
      HeadIsBelow(keys, rest);
      if HasPrefix(k, prefix) && Less(after, k) then [k] + rest else rest
  }

  lemma HeadIsBelow(keys: seq<string>, rest: seq<string>)
    requires keys != [] && forall k :: k in rest ==> k in keys[1..]
    ensures Increasing(keys) ==> forall i :: 0 <= i < |rest| ==> Less(keys[0], rest[i])
  {
    if Increasing(keys) {
      forall i | 0 <= i < |rest| ensures Less(keys[0], rest[i]) {
        assert rest[i] in keys[1..];
        var j :| 0 <= j < |keys[1..]| && keys[1..][j] == rest[i];
        assert keys[j + 1] == rest[i];
      }
    }
  }

  /** `Store.List`: at most `limit` entries, and all of them when it is zero. */
  function List(keys: seq<string>, prefix: string, after: string, limit: nat): (r: seq<string>)
    ensures r <= Under(keys, prefix, after)
    ensures 0 < limit ==> |r| <= limit
    ensures limit == 0 || |r| < limit ==> r == Under(keys, prefix, after)
  {
    var all := Under(keys, prefix, after);
    if 0 < limit < |all| then all[..limit] else all
  }

  /** Two increasing sequences of the same keys are one sequence. */
  lemma {:induction false} SameKeys(a: seq<string>, b: seq<string>)
    requires Increasing(a) && Increasing(b)
    requires forall k :: k in a <==> k in b
    ensures a == b
  {
    if a == [] {
      HasFirst(b);
    } else {
      assert a[0] in b;
      assert b[0] in a;
      FirstIsLeast(a, b[0]);
      FirstIsLeast(b, a[0]);
      assert a[0] == b[0] by { if a[0] != b[0] { Asymmetric(a[0], b[0]); } }
      forall k ensures k in a[1..] <==> k in b[1..] {
        TailKeys(a, k);
        TailKeys(b, k);
      }
      SameKeys(a[1..], b[1..]);
      assert a == [a[0]] + a[1..] && b == [b[0]] + b[1..];
    }
  }

  lemma HasFirst(b: seq<string>)
    ensures b != [] ==> b[0] in b
  {
  }

  lemma FirstIsLeast(a: seq<string>, k: string)
    requires Increasing(a) && k in a
    ensures AtMost(a[0], k)
  {
    var i :| 0 <= i < |a| && a[i] == k;
    if 0 < i { assert Less(a[0], a[i]); }
  }

  lemma TailKeys(a: seq<string>, k: string)
    requires Increasing(a) && a != []
    ensures k in a[1..] <==> k in a && k != a[0]
  {
    if k in a[1..] {
      var i :| 0 <= i < |a[1..]| && a[1..][i] == k;
      assert Less(a[0], a[i + 1]);
      Irreflexive(k);
    }
    if k in a && k != a[0] {
      var i :| 0 <= i < |a| && a[i] == k;
      assert a[1..][i - 1] == k;
    }
  }

  /** What is left of a listing after one of its own keys is its tail. */
  lemma UnderAfter(keys: seq<string>, prefix: string, after: string, n: nat)
    requires Increasing(keys) && n < |Under(keys, prefix, after)|
    ensures Under(keys, prefix, Under(keys, prefix, after)[n]) == Under(keys, prefix, after)[n + 1..]
  {
    var u := Under(keys, prefix, after);
    var v := Under(keys, prefix, u[n]);
    forall k ensures k in v <==> k in u[n + 1..] {
      if k in v {
        Transitive(after, u[n], k);
        var i :| 0 <= i < |u| && u[i] == k;
        if i <= n { AtMostInOrder(u, i, n); NotBoth(u[i], u[n]); }
        assert u[n + 1..][i - n - 1] == k;
      }
      if k in u[n + 1..] {
        var i :| 0 <= i < |u[n + 1..]| && u[n + 1..][i] == k;
        assert Less(u[n], u[n + 1 + i]);
      }
    }
    SameKeys(v, u[n + 1..]);
  }

  lemma AtMostInOrder(a: seq<string>, i: nat, j: nat)
    requires Increasing(a) && i <= j < |a|
    ensures AtMost(a[i], a[j])
  {
  }

  lemma NotBoth(a: string, b: string)
    requires AtMost(a, b)
    ensures !Less(b, a)
  {
    Irreflexive(a);
    if Less(a, b) { Asymmetric(a, b); }
  }

  // ----- the walk of a range of keys

  /** What a paged walk of the keys strictly between `start` and `stop` calls
      its function on: exactly those keys, once each, in order. */
  ghost predicate Visits(visited: seq<string>, keys: seq<string>, prefix: string, start: string, stop: string)
  {
    && Increasing(visited)
    && forall k :: k in visited <==> k in keys && HasPrefix(k, prefix) && Less(start, k) && Less(k, stop)
  }

  /** Visits the keys of one page up to the first that is not below `stop`. */
  method VisitPage(entries: seq<string>, stop: string) returns (n: nat)
    ensures n <= |entries|
    ensures forall i :: 0 <= i < n ==> Less(entries[i], stop)
    ensures n < |entries| ==> !Less(entries[n], stop)
  {
    n := 0;
    while n < |entries|
      invariant n <= |entries|
      invariant forall i :: 0 <= i < n ==> Less(entries[i], stop)
    {
      if !Less(entries[n], stop) {
        return;
      }
      n := n + 1;
    }
  }

  /** The loop that `WalkHours` and `WalkSeals` share: list a page, visit each
      key below `stop`, list on from the last key seen. */
  method WalkRange(keys: seq<string>, prefix: string, from: string, stop: string) returns (visited: seq<string>)
    requires Increasing(keys)
    ensures Visits(visited, keys, prefix, from, stop)
  {
    hide Less, HasPrefix, Under;
    visited := [];
    var start := from;
    ghost var all := Under(keys, prefix, from);
    while true
      invariant visited <= all
      invariant forall i :: 0 <= i < |visited| ==> Less(visited[i], stop)
      invariant Under(keys, prefix, start) == all[|visited|..]
      decreases |all| - |visited|
    {
      var entries := List(keys, prefix, start, PAGE_SIZE);
      var n := VisitPage(entries, stop);
      ghost var seen := |visited|;
      visited := visited + entries[..n];
      ExtendsWalk(all, seen, entries, n);
      if n < |entries| {
        StopsHere(all, |visited|, stop);
        PrefixIsVisited(visited, all, keys, prefix, from, stop);
        return;
      }
      if |entries| < PAGE_SIZE {
        PrefixIsVisited(visited, all, keys, prefix, from, stop);
        return;
      }
      start := entries[n - 1];
      UnderAfter(keys, prefix, from, |visited| - 1);
    }
  }

  lemma ExtendsWalk(all: seq<string>, seen: nat, entries: seq<string>, n: nat)
    requires seen <= |all| && entries <= all[seen..] && n <= |entries|
    ensures all[..seen] + entries[..n] == all[..seen + n]
    ensures n < |entries| ==> all[seen + n] == entries[n]
    ensures 0 < n ==> all[seen + n - 1] == entries[n - 1]
    ensures entries == all[seen..] ==> seen + |entries| == |all|
  {
    assert forall i :: 0 <= i < |entries| ==> entries[i] == all[seen..][i] == all[seen + i];
  }

  lemma StopsHere(all: seq<string>, n: nat, stop: string)
    requires Increasing(all) && n < |all| && !Less(all[n], stop)
    ensures forall i :: n <= i < |all| ==> !Less(all[i], stop)
  {
    forall i | n <= i < |all| ensures !Less(all[i], stop) {
      AtMostInOrder(all, n, i);
      if Less(all[i], stop) && n < i { Transitive(all[n], all[i], stop); }
    }
  }

  lemma PrefixIsVisited(visited: seq<string>, all: seq<string>, keys: seq<string>, prefix: string, from: string,
                        stop: string)
    requires Increasing(keys) && all == Under(keys, prefix, from) && visited <= all
    requires forall i :: 0 <= i < |visited| ==> Less(visited[i], stop)
    requires forall i :: |visited| <= i < |all| ==> !Less(all[i], stop)
    ensures Visits(visited, keys, prefix, from, stop)
  {
    forall k ensures k in visited <==> k in all && Less(k, stop) {
      if k in all && Less(k, stop) {
        var i :| 0 <= i < |all| && all[i] == k;
        assert visited[i] == k;
      }
      if k in visited {
        var i :| 0 <= i < |visited| && visited[i] == k;
        assert all[i] == k;
      }
    }
  }

  /** Where a walk of hours starts: after the prefix of the first hour, or after
      the cursor when that is further on. */
  function WalkStart(profile: string, tenant: string, first: int, after: string): string
  {
    var start := HourPrefix(profile, tenant, first);
    if Less(start, after) then after else start
  }

  method WalkHours(keys: seq<string>, profile: string, tenant: string, first: int, last: int, after: string)
    returns (visited: seq<string>)
    requires Increasing(keys)
    ensures last < first ==> visited == []
    ensures first <= last ==>
      Visits(visited, keys, TenantPrefix(profile, tenant), WalkStart(profile, tenant, first, after),
          HourPrefix(profile, tenant, last + 1))
  {
    visited := [];
    if last < first {
      return;
    }
    visited := WalkRange(keys, TenantPrefix(profile, tenant), WalkStart(profile, tenant, first, after),
                         HourPrefix(profile, tenant, last + 1));
  }

  method WalkSeals(keys: seq<string>, profile: string, tenant: string, first: int, last: int)
    returns (visited: seq<string>)
    requires Increasing(keys)
    ensures last < first ==> visited == []
    ensures first <= last ==>
      Visits(visited, keys, SealTenantPrefix(profile, tenant), SealKey(profile, tenant, first - 1),
          SealKey(profile, tenant, last + 1))
  {
    visited := [];
    if last < first {
      return;
    }
    visited := WalkRange(keys, SealTenantPrefix(profile, tenant), SealKey(profile, tenant, first - 1),
                         SealKey(profile, tenant, last + 1));
  }

  lemma KeyIsUnderTenant(o: RecordObject)
    ensures HasPrefix(RecordKey(o.profile, o.tenant, o.hour, o.ulid), TenantPrefix(o.profile, o.tenant))
  {
    hide HourPath;
  }

  /** Of the record keys that parse, a walk of hours visits exactly those of its
      tenant whose hour is in the range and that sort after the cursor; the
      years it is right for are those a key writes in four digits. */
  lemma WalkFindsHours(visited: seq<string>, keys: seq<string>, o: RecordObject, first: int, last: int, after: string)
    requires FourDigitYear(first) && FourDigitYear(last + 1)
    requires Visits(visited, keys, TenantPrefix(o.profile, o.tenant),
                    WalkStart(o.profile, o.tenant, first, after), HourPrefix(o.profile, o.tenant, last + 1))
    requires WellFormedRecord(o)
    ensures var key := RecordKey(o.profile, o.tenant, o.hour, o.ulid);
            key in visited <==> key in keys && first <= o.hour <= last && Less(after, key)
  {
    hide FromHour, HourOfULID;
    var key := RecordKey(o.profile, o.tenant, o.hour, o.ulid);
    var start, stop := HourPrefix(o.profile, o.tenant, first), HourPrefix(o.profile, o.tenant, last + 1);
    KeyIsUnderTenant(o);
    HourPrefixOrder(o, first);
    HourPrefixOrder(o, last + 1);
    assert Less(start, key) <==> first <= o.hour;
    assert Less(key, stop) <==> o.hour <= last;
    if Less(start, after) {
      if Less(after, key) { Transitive(start, after, key); }
    } else {
      Total(start, after);
      if Less(start, key) && Less(after, start) { Transitive(after, start, key); }
    }
  }

  /** A record's key sorts after the prefix of its own hour and of every hour
      before, and before the prefix of every hour after. */
  lemma HourPrefixOrder(o: RecordObject, hour: int)
    requires WellFormedRecord(o) && FourDigitYear(hour)
    ensures var key := RecordKey(o.profile, o.tenant, o.hour, o.ulid);
            var mark := HourPrefix(o.profile, o.tenant, hour);
            && (Less(mark, key) <==> hour <= o.hour)
            && (Less(key, mark) <==> o.hour < hour)
  {
    hide FourDigitYear, HourOfULID, HourPrefix, ValidULID;
    var key := RecordKey(o.profile, o.tenant, o.hour, o.ulid);
    var mark := HourPrefix(o.profile, o.tenant, hour);
    MarkIsKey(o.profile, o.tenant, hour);
    if hour < o.hour {
      RecordKeysApart(o.profile, o.tenant, hour, o.hour, "", o.ulid);
      Asymmetric(mark, key);
    } else if o.hour < hour {
      RecordKeysApart(o.profile, o.tenant, o.hour, hour, o.ulid, "");
      Asymmetric(key, mark);
    } else {
      ULIDIsNotEmpty(o.ulid);
      Extension(mark, o.ulid);
      Asymmetric(mark, key);
    }
  }

  lemma ULIDIsNotEmpty(s: string)
    requires ValidULID(s)
    ensures s != ""
  {
  }

  lemma MarkIsKey(profile: string, tenant: string, hour: int)
    ensures RecordKey(profile, tenant, hour, "") == HourPrefix(profile, tenant, hour)
  {
    hide HourPrefix;
  }

  /** Visited keys come in ingest order: a later one is of no earlier hour. */
  lemma WalkIsInHourOrder(visited: seq<string>, i: nat, j: nat, a: RecordObject, b: RecordObject)
    requires Increasing(visited) && i < j < |visited|
    requires WellFormedRecord(a) && WellFormedRecord(b) && a.profile == b.profile && a.tenant == b.tenant
    requires visited[i] == RecordKey(a.profile, a.tenant, a.hour, a.ulid)
    requires visited[j] == RecordKey(b.profile, b.tenant, b.hour, b.ulid)
    ensures a.hour < b.hour || (a.hour == b.hour && Less(a.ulid, b.ulid))
  {
    RecordKeyOrder(a, b);
  }

  /** Stopping at any key and resuming after it visits the same keys as not
      having stopped. */
  lemma WalkResumes(whole: seq<string>, rest: seq<string>, n: nat, keys: seq<string>, prefix: string, start: string,
                    stop: string)
    requires n < |whole|
    requires Visits(whole, keys, prefix, start, stop)
    requires Visits(rest, keys, prefix, whole[n], stop)
    ensures whole == whole[..n + 1] + rest
  {
    assert whole[n] in whole;
    forall k ensures k in rest <==> k in whole[n + 1..] {
      if k in rest {
        Transitive(start, whole[n], k);
        var i :| 0 <= i < |whole| && whole[i] == k;
        if i <= n { AtMostInOrder(whole, i, n); NotBoth(whole[i], whole[n]); }
        assert whole[n + 1..][i - n - 1] == k;
      }
      if k in whole[n + 1..] {
        var i :| 0 <= i < |whole[n + 1..]| && whole[n + 1..][i] == k;
        assert whole[n + 1 + i] == k && Less(whole[n], whole[n + 1 + i]);
      }
    }
    SameKeys(rest, whole[n + 1..]);
  }

  /** The same for seals, whose keys name nothing but the hour. */
  lemma WalkFindsSeals(visited: seq<string>, keys: seq<string>, o: SealObject, first: int, last: int)
    requires FourDigitYear(first - 1) && FourDigitYear(last + 1)
    requires Visits(visited, keys, SealTenantPrefix(o.profile, o.tenant),
                    SealKey(o.profile, o.tenant, first - 1), SealKey(o.profile, o.tenant, last + 1))
    requires WellFormedSeal(o)
    ensures var key := SealKey(o.profile, o.tenant, o.hour);
            key in visited <==> key in keys && first <= o.hour <= last
  {
    SealKeyOrder(o.profile, o.tenant, first - 1, o.hour);
    SealKeyOrder(o.profile, o.tenant, o.hour, last + 1);
    SealIsUnderTenant(o);
  }

  lemma SealIsUnderTenant(o: SealObject)
    ensures HasPrefix(SealKey(o.profile, o.tenant, o.hour), SealTenantPrefix(o.profile, o.tenant))
  {
    hide HourPath;
  }
}
