/** internal/hold/hold.go: legal holds, recorded by adding to the archive and
    set on objects by sweeping a prefix. */
module Hold {
  import opened Options
  import opened Lex
  import opened Text
  import opened Layout
  import Walk

  datatype Record = Record(
    id: string, profile: string, tenant: string, reason: string,
    placedBy: string, placedAt: int, releasedBy: string, releasedAt: Option<int>)

  const HOLDS := "holds/"
  const PLACED := "placed.json"
  const RELEASED := "released.json"

  function PlacedKey(id: string): string
  {
    HOLDS + id + "/" + PLACED
  }

  function ReleasedKey(id: string): string
  {
    HOLDS + id + "/" + RELEASED
  }

  function ProfilePrefix(profile: string): string
  {
    RECORDS + profile + "/"
  }

  function PrefixOf(r: Record): string
  {
    if r.tenant == "" then ProfilePrefix(r.profile) else TenantPrefix(r.profile, r.tenant)
  }

  predicate Covers(r: Record, profile: string, tenant: string)
  {
    r.profile == profile && (r.tenant == "" || r.tenant == tenant)
  }

  // ----- a key's two parts

  /** Where the last slash is, or -1. */
  function LastSlash(s: string): (at: int)
    ensures -1 <= at < |s|
    ensures at >= 0 ==> s[at] == '/'
    ensures forall i :: at < i < |s| ==> s[i] != '/'
  {
    if s == "" then -1
    else if s[|s| - 1] == '/' then |s| - 1
    else LastSlash(s[..|s| - 1])
  }

  function SplitKey(key: string): (string, string)
  {
    var rest := if HasPrefix(key, HOLDS) then key[|HOLDS|..] else key;
    var at := LastSlash(rest);
    if at < 0 then ("", "") else (rest[..at], rest[at + 1..])
  }

  lemma SplitOf(id: string, kind: string)
    requires NoSlash(kind)
    ensures SplitKey(HOLDS + id + "/" + kind) == (id, kind)
  {
    hide LastSlash;
    var key, rest := HOLDS + id + "/" + kind, id + "/" + kind;
    assert key == HOLDS + rest && key[..|HOLDS|] == HOLDS && key[|HOLDS|..] == rest;
    LastSlashOf(id, kind);
    assert rest[..|id|] == id && rest[|id| + 1..] == kind;
  }

  lemma LastSlashOf(id: string, kind: string)
    requires NoSlash(kind)
    ensures LastSlash(id + "/" + kind) == |id|
  {
    hide LastSlash;
    var front := id + "/";
    var rest := front + kind;
    assert rest[|id|] == front[|id|] == '/';
    forall i | |id| < i < |rest| ensures rest[i] != '/' {
      InSecond(front, kind, i);
    }
    LastSlashIs(rest, |id|);
  }

  lemma InSecond(a: string, b: string, i: nat)
    requires |a| <= i < |a + b| && NoSlash(b)
    ensures (a + b)[i] != '/'
  {
    assert (a + b)[i] == b[i - |a|];
  }

  lemma LastSlashIs(s: string, n: nat)
    requires n < |s| && s[n] == '/' && forall i :: n < i < |s| ==> s[i] != '/'
    ensures LastSlash(s) == n
  {
  }

  /** A hold's two keys say whose they are and which, whatever its identifier. */
  lemma KeysTell(id: string)
    ensures SplitKey(PlacedKey(id)) == (id, PLACED)
    ensures SplitKey(ReleasedKey(id)) == (id, RELEASED)
    ensures PLACED != RELEASED
  {
    assert PLACED[0] == 'p' && RELEASED[0] == 'r';
    SplitOf(id, PLACED);
    SplitOf(id, RELEASED);
  }

  // ----- what is recorded

  type Records = map<string, Record>

  /** Every key is a hold's placement, or the release of a hold that was placed,
      and the release repeats what the placement says. */
  ghost predicate Consistent(records: Records)
  {
    forall k :: k in records ==>
      var r := records[k];
      || (k == PlacedKey(r.id) && r.releasedAt.None?)
      || (k == ReleasedKey(r.id) && r.releasedAt.Some? && PlacedKey(r.id) in records
          && r == records[PlacedKey(r.id)].(releasedBy := r.releasedBy, releasedAt := r.releasedAt))
  }

  /** `Get`: a hold as it now stands. */
  function Get(records: Records, id: string): Option<Record>
  {
    if PlacedKey(id) !in records then None
    else if ReleasedKey(id) !in records then Some(records[PlacedKey(id)])
    else
      var off := records[ReleasedKey(id)];
      Some(records[PlacedKey(id)].(releasedBy := off.releasedBy, releasedAt := off.releasedAt))
  }

  function Merge(a: Record, b: Record): Record
  {
    if b.releasedAt.None? then b.(releasedAt := a.releasedAt, releasedBy := a.releasedBy)
    else a.(releasedAt := b.releasedAt, releasedBy := b.releasedBy)
  }

  lemma RecordAt(records: Records, id: string)
    requires Consistent(records)
    ensures PlacedKey(id) in records ==> records[PlacedKey(id)].id == id && records[PlacedKey(id)].releasedAt.None?
    ensures ReleasedKey(id) in records ==>
              && PlacedKey(id) in records
              && records[ReleasedKey(id)].id == id && records[ReleasedKey(id)].releasedAt.Some?
              && Get(records, id) == Some(records[ReleasedKey(id)])
  {
    KeysTell(id);
    if PlacedKey(id) in records { KeysTell(records[PlacedKey(id)].id); }
    if ReleasedKey(id) in records { KeysTell(records[ReleasedKey(id)].id); }
  }

  /** What is known of a hold once some of the keys were read. */
  ghost function Known(records: Records, left: set<string>, id: string): Option<Record>
  {
    if ReleasedKey(id) in records && ReleasedKey(id) !in left then Some(records[ReleasedKey(id)])
    else if PlacedKey(id) in records && PlacedKey(id) !in left then Some(records[PlacedKey(id)])
    else None
  }

  lemma ReadOne(records: Records, left: set<string>, key: string, id: string)
    requires Consistent(records) && key in left && left <= records.Keys
    ensures var r := records[key];
            Known(records, left - {key}, id) ==
              if r.id != id then Known(records, left, id)
              else if Known(records, left, id).None? then Some(r)
              else Some(Merge(Known(records, left, id).value, r))
  {
    hide SplitKey, PlacedKey, ReleasedKey;
    KeysTell(id);
    RecordAt(records, id);
    KeysTell(records[key].id);
    RecordAt(records, records[key].id);
    IsOneOf(records, key);
  }

  lemma IsOneOf(records: Records, key: string)
    requires Consistent(records) && key in records
    ensures key == PlacedKey(records[key].id) || key == ReleasedKey(records[key].id)
  {
  }

  /** Every hold, as it stands, whichever order its keys are read in. */
  method ReadAll(records: Records) returns (byId: map<string, Record>)
    requires Consistent(records)
    ensures forall id :: (if id in byId then Some(byId[id]) else None) == Get(records, id)
  {
    hide Merge, PlacedKey, ReleasedKey;
    byId := map[];
    var left := records.Keys;
    while left != {}
      invariant left <= records.Keys
      invariant forall id :: (if id in byId then Some(byId[id]) else None) == Known(records, left, id)
    {
      hide Known, Consistent;
      var key :| key in left;
      var r := records[key];
      forall id ensures Known(records, left - {key}, id) ==
                          if r.id != id then Known(records, left, id)
                          else if Known(records, left, id).None? then Some(r)
                          else Some(Merge(Known(records, left, id).value, r))
      {
        ReadOne(records, left, key, id);
      }
      byId := byId[r.id := if r.id in byId then Merge(byId[r.id], r) else r];
      left := left - {key};
    }
    forall id ensures Known(records, {}, id) == Get(records, id) { RecordAt(records, id); }
  }

  ghost predicate NewestFirst(out: seq<Record>)
  {
    forall i, j :: 0 <= i < j < |out| ==> out[i].placedAt >= out[j].placedAt
  }

  ghost predicate DistinctIds(out: seq<Record>)
  {
    forall i, j :: 0 <= i < j < |out| ==> out[i].id != out[j].id
  }

  /** Holds in the order they are given, the newest first; which of two placed at
      one moment comes first is not said. */
  method Sorted(byId: map<string, Record>) returns (out: seq<Record>)
    requires forall id :: id in byId ==> byId[id].id == id
    ensures NewestFirst(out) && DistinctIds(out)
    ensures forall r :: r in out <==> r.id in byId && byId[r.id] == r
  {
    out := [];
    var left := byId.Keys;
    while left != {}
      invariant left <= byId.Keys && NewestFirst(out) && DistinctIds(out)
      invariant forall r :: r in out <==> r.id in byId && r.id !in left && byId[r.id] == r
    {
      var id :| id in left;
      left := left - {id};
      out := InsertByDate(out, byId[id]);
    }
  }

  method InsertByDate(was: seq<Record>, r: Record) returns (out: seq<Record>)
    requires NewestFirst(was) && DistinctIds(was) && forall x :: x in was ==> x.id != r.id
    ensures NewestFirst(out) && DistinctIds(out) && forall x :: x in out <==> x in was || x == r
  {
    hide DistinctIds, Inserted;
    var i := |was|;
    while i > 0 && was[i - 1].placedAt < r.placedAt
      invariant 0 <= i <= |was|
      invariant forall k :: i <= k < |was| ==> was[k].placedAt < r.placedAt
    {
      i := i - 1;
    }
    out := Inserted(was, r, i);
    InsertedInOrder(was, r, i);
    InsertedOnce(was, r, i);
    InsertedHas(was, r, i);
  }

  function Inserted(was: seq<Record>, r: Record, i: nat): (out: seq<Record>)
    requires i <= |was|
    ensures |out| == |was| + 1
    ensures forall k :: 0 <= k < |out| ==> out[k] == if k < i then was[k] else if k == i then r else was[k - 1]
  {
    was[..i] + [r] + was[i..]
  }

  lemma InsertedInOrder(was: seq<Record>, r: Record, i: nat)
    requires i <= |was| && NewestFirst(was) && (i > 0 ==> was[i - 1].placedAt >= r.placedAt)
    requires forall k :: i <= k < |was| ==> was[k].placedAt < r.placedAt
    ensures NewestFirst(Inserted(was, r, i))
  {
    var out := Inserted(was, r, i);
    forall j, k | 0 <= j < k < |out| ensures out[j].placedAt >= out[k].placedAt {
      assert out[j] == if j < i then was[j] else if j == i then r else was[j - 1];
      assert out[k] == if k < i then was[k] else if k == i then r else was[k - 1];
      if j < i == k && j < i - 1 { assert was[j].placedAt >= was[i - 1].placedAt; }
    }
  }

  lemma InsertedOnce(was: seq<Record>, r: Record, i: nat)
    requires i <= |was| && DistinctIds(was) && forall x :: x in was ==> x.id != r.id
    ensures DistinctIds(Inserted(was, r, i))
  {
    assert forall k :: 0 <= k < |was| ==> was[k] in was;
    var out := Inserted(was, r, i);
    forall j, k | 0 <= j < k < |out| ensures out[j].id != out[k].id {
      assert out[j] == if j < i then was[j] else if j == i then r else was[j - 1];
      assert out[k] == if k < i then was[k] else if k == i then r else was[k - 1];
    }
  }

  lemma InsertedHas(was: seq<Record>, r: Record, i: nat)
    requires i <= |was|
    ensures forall x :: x in Inserted(was, r, i) <==> x in was || x == r
  {
    assert was == was[..i] + was[i..];
    assert forall x :: x in was <==> x in was[..i] || x in was[i..];
  }

  /** `List`: every hold, once, as it now stands, the newest first. */
  method List(records: Records) returns (out: seq<Record>)
    requires Consistent(records)
    ensures NewestFirst(out) && DistinctIds(out)
    ensures forall r :: r in out <==> Get(records, r.id) == Some(r)
  {
    hide Consistent, Get, NewestFirst, DistinctIds;
    var byId := ReadAll(records);
    forall id | id in byId ensures byId[id].id == id { GotIsOwn(records, id); }
    out := Sorted(byId);
  }

  lemma GotIsOwn(records: Records, id: string)
    requires Consistent(records)
    ensures Get(records, id).Some? ==> Get(records, id).value.id == id
  {
    hide PlacedKey, ReleasedKey;
    RecordAt(records, id);
  }

  /** A hold that is on. */
  predicate IsActive(records: Records, id: string)
  {
    Get(records, id).Some? && Get(records, id).value.releasedAt.None?
  }

  /** What the keys alone say. */
  lemma ActiveByKeys(records: Records, id: string)
    requires Consistent(records)
    ensures IsActive(records, id) <==> PlacedKey(id) in records && ReleasedKey(id) !in records
    ensures IsActive(records, id) ==> Get(records, id) == Some(records[PlacedKey(id)])
  {
    hide PlacedKey, ReleasedKey;
    RecordAt(records, id);
  }

  /** Some keys hold a placement, and some a release. */
  ghost predicate Seen(records: Records, left: set<string>, placed: map<string, string>, released: set<string>)
  {
    && (forall id :: id in placed <==> PlacedKey(id) in records && PlacedKey(id) !in left)
    && (forall id :: id in placed ==> placed[id] == PlacedKey(id))
    && (forall id :: id in released <==> ReleasedKey(id) in records && ReleasedKey(id) !in left)
  }

  lemma SeeOne(records: Records, left: set<string>, placed: map<string, string>, released: set<string>, key: string)
    requires Consistent(records) && key in left && left <= records.Keys && Seen(records, left, placed, released)
    ensures var (id, kind) := SplitKey(key);
            && (kind == PLACED || kind == RELEASED)
            && (kind == PLACED ==> Seen(records, left - {key}, placed[id := key], released))
            && (kind == RELEASED ==> Seen(records, left - {key}, placed, released + {id}))
  {
    hide SplitKey, PlacedKey, ReleasedKey;
    var id := records[key].id;
    IsOneOf(records, key);
    KeysTell(id);
    forall i
      ensures PlacedKey(i) == key <==> i == id && key == PlacedKey(id)
      ensures ReleasedKey(i) == key <==> i == id && key == ReleasedKey(id)
    {
      KeysTell(i);
    }
  }

  /** The holds that are on, found by their keys and read only where they are. */
  method ReadActive(records: Records) returns (on: map<string, Record>)
    requires Consistent(records)
    ensures forall id :: id in on <==> IsActive(records, id)
    ensures forall id :: id in on ==> Get(records, id) == Some(on[id])
  {
    hide SplitKey, PlacedKey, ReleasedKey;
    var placed: map<string, string>, released: set<string>, left := map[], {}, records.Keys;
    while left != {}
      invariant left <= records.Keys && Seen(records, left, placed, released)
    {
      hide Seen, Consistent;
      var key :| key in left;
      SeeOne(records, left, placed, released, key);
      var (id, kind) := SplitKey(key);
      if kind == PLACED { placed := placed[id := key]; } else { released := released + {id}; }
      left := left - {key};
    }
    forall id ensures IsActive(records, id) <==> id in placed && id !in released { ActiveByKeys(records, id); }
    forall id | IsActive(records, id)
      ensures Get(records, id) == Some(records[placed[id]])
    {
      ActiveByKeys(records, id);
    }
    on := map id | id in placed && id !in released :: records[placed[id]];
  }

  /** `Active`: the holds of `List` that were not released, the newest first. */
  method Active(records: Records) returns (out: seq<Record>)
    requires Consistent(records)
    ensures NewestFirst(out) && DistinctIds(out)
    ensures forall r :: r in out <==> Get(records, r.id) == Some(r) && r.releasedAt.None?
  {
    hide Consistent, Get, NewestFirst, DistinctIds;
    var on := ReadActive(records);
    forall id | id in on ensures on[id].id == id { GotIsOwn(records, id); }
    out := Sorted(on);
  }

  // ----- what a writer knows of them

  /** A list of the holds that are on, as `Active` gives it. */
  ghost predicate IsListOf(list: seq<Record>, records: Records)
  {
    forall r :: r in list <==> Get(records, r.id) == Some(r) && r.releasedAt.None?
  }

  predicate ListCovers(list: seq<Record>, profile: string, tenant: string)
  {
    exists r :: r in list && Covers(r, profile, tenant)
  }

  /** internal/hold/watcher.go: the list a writer acts on until it reads another. */
  class Watcher {
    var active: seq<Record>
    var loaded: bool

    constructor ()
      ensures active == [] && !loaded
    {
      active, loaded := [], false;
    }

    /** Whether some hold of the list covers a profile and tenant. */
    method Held(profile: string, tenant: string) returns (held: bool)
      ensures held <==> ListCovers(active, profile, tenant)
    {
      hide Covers;
      for i := 0 to |active|
        invariant forall k :: 0 <= k < i ==> !Covers(active[k], profile, tenant)
      {
        if Covers(active[i], profile, tenant) {
          assert active[i] in active;
          return true;
        }
      }
      return false;
    }

    /** Reads the list again. */
    method Refresh(records: Records)
      requires Consistent(records)
      modifies this
      ensures loaded && IsListOf(active, records)
    {
      hide Consistent, Get, NewestFirst, DistinctIds;
      active := Active(records);
      loaded := true;
    }
  }

  // ----- the archive

  /** White space, as Unicode has it. */
  predicate IsSpace(c: char)
  {
    var n := c as int;
    || 0x09 <= n <= 0x0d || n in {0x20, 0x85, 0xa0, 0x1680, 0x2028, 0x2029, 0x202f, 0x205f, 0x3000}
    || 0x2000 <= n <= 0x200a
  }

  /** Nothing but white space. */
  predicate IsBlank(s: string)
  {
    forall c :: c in s ==> IsSpace(c)
  }

  /** A text without the white space it begins and ends with. */
  function TrimSpace(s: string): string
  {
    if s != "" && IsSpace(s[0]) then TrimSpace(s[1..])
    else if s != "" && IsSpace(s[|s| - 1]) then TrimSpace(s[..|s| - 1])
    else s
  }

  /** A text is blank exactly when nothing is left of it. */
  lemma {:induction false} BlankIsTrimmed(s: string)
    ensures IsBlank(s) <==> TrimSpace(s) == ""
  {
    hide IsSpace;
    if s != "" && IsSpace(s[0]) {
      assert s == [s[0]] + s[1..];
      BlankIsTrimmed(s[1..]);
    } else if s != "" && IsSpace(s[|s| - 1]) {
      assert s == s[..|s| - 1] + [s[|s| - 1]];
      BlankIsTrimmed(s[..|s| - 1]);
    } else if s != "" {
      assert s[0] in s;
    }
  }

  /** What can be a part of a key. */
  predicate KeyComponent(s: string)
  {
    s != "" && '/' !in s && s != "." && s != ".."
  }

  predicate CanPlace(records: Records, r: Record)
  {
    && r.profile != "" && !IsBlank(r.reason) && KeyComponent(r.profile) && (r.tenant == "" || KeyComponent(r.tenant))
    && r.id != "" && !IsBlank(r.placedBy) && Get(records, r.id).None?
  }

  datatype State = State(objects: set<string>, held: set<string>, records: Records)

  ghost function KeySet(keys: seq<string>): set<string>
  {
    set k | k in keys
  }

  ghost function Swept(objects: set<string>, prefix: string): set<string>
  {
    set k | k in objects && HasPrefix(k, prefix)
  }

  ghost function AfterPlace(s: State, r: Record, now: int): State
  {
    s.(records := s.records[PlacedKey(r.id) := r.(placedAt := now)], held := s.held + Swept(s.objects, PrefixOf(r)))
  }

  ghost function AfterRelease(s: State, r: Record, who: string, now: int): State
  {
    s.(records := s.records[ReleasedKey(r.id) := r.(releasedAt := Some(now), releasedBy := who)],
        held := s.held - Swept(s.objects, PrefixOf(r)))
  }

  /** The keys of objects in order, those that are held, and the records. */
  class Store {
    var keys: seq<string>
    var held: set<string>
    var records: Records

    ghost function Now(): State
      reads this
    {
      State(KeySet(keys), held, records)
    }

    constructor ()
      ensures Now() == State({}, {}, map[])
    {
      keys, held, records := [], {}, map[];
    }

    /** Sets or clears the hold on one page of keys. */
    method SetLegalHolds(entries: seq<string>, on: bool)
      modifies this`held
      ensures held == if on then old(held) + KeySet(entries) else old(held) - KeySet(entries)
    {
      for i := 0 to |entries|
        invariant held == if on then old(held) + KeySet(entries[..i]) else old(held) - KeySet(entries[..i])
      {
        assert entries[..i + 1] == entries[..i] + [entries[i]];
        assert KeySet(entries[..i + 1]) == KeySet(entries[..i]) + {entries[i]};
        held := if on then held + {entries[i]} else held - {entries[i]};
      }
      assert entries[..|entries|] == entries;
    }

    /** Every key under a prefix has its hold set or cleared, page by page. */
    method Sweep(prefix: string, on: bool) returns (count: nat)
      requires Increasing(keys) && prefix != ""
      modifies this`held
      ensures held == if on then old(held) + Swept(KeySet(keys), prefix) else old(held) - Swept(KeySet(keys), prefix)
      ensures count == |Walk.Under(keys, prefix, "")|
    {
      hide Walk.Under, KeySet, Swept, Increasing, HasPrefix;
      var after := "";
      count := 0;
      ghost var all, done := Walk.Under(keys, prefix, ""), [];
      NoKeys();
      while true
        invariant all == done + Walk.Under(keys, prefix, after) && count == |done|
        invariant held == if on then old(held) + KeySet(done) else old(held) - KeySet(done)
        decreases |all| - count
      {
        var entries := Walk.List(keys, prefix, after, Walk.PAGE_SIZE);
        SetLegalHolds(entries, on);
        count := count + |entries|;
        Together(done, entries);
        if |entries| < Walk.PAGE_SIZE {
          done := done + entries;
          break;
        }
        NextPage(keys, prefix, after, entries, done, all);
        after := entries[|entries| - 1];
        done := done + entries;
      }
      AllUnder(keys, prefix);
    }

    method Place(r: Record, now: int) returns (ok: bool)
      requires Increasing(keys)
      modifies this`held, this`records
      ensures ok <==> old(CanPlace(records, r))
      ensures ok <==>
              && r.id != "" && !IsBlank(r.reason) && !IsBlank(r.placedBy)
              && r.profile !in ["", ".", ".."] && '/' !in r.profile && r.tenant !in [".", ".."] && '/' !in r.tenant
              && PlacedKey(r.id) !in old(records)
      ensures Now() == if ok then old(AfterPlace(Now(), r, now)) else old(Now())
    {
      if !CanPlace(records, r) { return false; }
      records := records[PlacedKey(r.id) := r.(placedAt := now)];
      var swept := Sweep(PrefixOf(r), true);
      return true;
    }

    method Release(id: string, who: string, now: int) returns (ok: bool)
      requires Increasing(keys) && Consistent(records)
      modifies this`held, this`records
      ensures ok <==> !IsBlank(who) && old(IsActive(records, id))
      ensures Now() == if ok then old(AfterRelease(Now(), Get(records, id).value, who, now)) else old(Now())
    {
      if IsBlank(who) || !IsActive(records, id) { return false; }
      RecordAt(records, id);
      var r := Get(records, id).value;
      records := records[ReleasedKey(id) := r.(releasedAt := Some(now), releasedBy := who)];
      var swept := Sweep(PrefixOf(r), false);
      return true;
    }
  }

  lemma NoKeys()
    ensures KeySet([]) == {}
  {
  }

  lemma Together(a: seq<string>, b: seq<string>)
    ensures KeySet(a + b) == KeySet(a) + KeySet(b)
  {
  }

  lemma NextPage(keys: seq<string>, prefix: string, after: string, entries: seq<string>, done: seq<string>,
                 all: seq<string>)
    requires Increasing(keys) && entries != [] && entries <= Walk.Under(keys, prefix, after)
    requires all == done + Walk.Under(keys, prefix, after)
    ensures all == done + entries + Walk.Under(keys, prefix, entries[|entries| - 1])
  {
    hide Walk.Under;
    Walk.UnderAfter(keys, prefix, after, |entries| - 1);
    var rest := Walk.Under(keys, prefix, after);
    assert rest[|entries| - 1] == entries[|entries| - 1];
    assert rest == entries + rest[|entries|..];
    assert all == done + entries + rest[|entries|..];
  }

  lemma AllUnder(keys: seq<string>, prefix: string)
    requires prefix != ""
    ensures KeySet(Walk.Under(keys, prefix, "")) == Swept(KeySet(keys), prefix)
  {
    hide Walk.Under;
  }
}
