/** What an hour holds and what a seal says of it: internal/seal/hour.go and
    the statement of internal/seal/payload.go.

    Everything here is of one profile and tenant. Hours are counted as in
    `Calendar`; a moment is in nanoseconds from the same origin, and a retention
    of zero is no retention. */
module Seals {
  import opened Options
  import opened Merkle

  const SECOND := 1_000_000_000
  const HOUR := 3600 * SECOND

  function HourOf(t: int): int
  {
    t / HOUR
  }

  /** One line of a record object: the 32 bytes its hash decodes to, if it does,
      and whether they are the hash of its record. */
  datatype Line = Line(stated: Option<string>, verifies: bool)

  /** One key the walk of an hour visits. `Stray` is no record key of the hour. */
  datatype Entry =
    | Stray(key: string)
    | Object(key: string, retain: nat, size: nat, decoded: Option<seq<Line>>, metadataProblems: nat)

  /** What the objects of an hour come to. */
  datatype Held = Held(objects: nat, count: nat, bytes: nat, leaves: seq<Hash>,
                       first: string, last: string, retain: nat, problems: nat)

  const NOTHING := Held(0, 0, 0, [], "", "", 0, 0)

  function ReadLine(h: Held, line: Line, strict: bool): Held
  {
    if strict && !line.verifies then h.(problems := h.problems + 1)
    else match line.stated
         case None => h.(problems := h.problems + 1)
         case Some(raw) => h.(leaves := h.leaves + [Leaf(raw)])
  }

  function ReadLines(h: Held, lines: seq<Line>, strict: bool): Held
  {
    if lines == [] then h
    else ReadLine(ReadLines(h, lines[..|lines| - 1], strict), lines[|lines| - 1], strict)
  }

  function ReadEntry(h: Held, e: Entry, strict: bool): Held
  {
    match e
    case Stray(_) => h.(problems := h.problems + 1)
    case Object(key, retain, size, decoded, metadataProblems) =>
      match decoded
      case None => h.(problems := h.problems + 1)
      case Some(lines) =>
        var checked := if strict then h.(problems := h.problems + metadataProblems) else h;
        var read := ReadLines(checked, lines, strict);
        read.(first := if read.first == "" then key else read.first, last := key,
              objects := read.objects + 1, count := read.count + |lines|, bytes := read.bytes + size,
              retain := if retain > read.retain then retain else read.retain)
  }

  /** What an hour holds, read strictly as the notary does or leniently as the
      checker does. */
  function HeldBy(entries: seq<Entry>, strict: bool): Held
  {
    if entries == [] then NOTHING
    else ReadEntry(HeldBy(entries[..|entries| - 1], strict), entries[|entries| - 1], strict)
  }

  /** The reading as it runs, object by object and line by line. */
  method Compute(entries: seq<Entry>, strict: bool) returns (h: Held)
    ensures h == HeldBy(entries, strict)
  {
    h := NOTHING;
    var i := 0;
    while i < |entries|
      invariant 0 <= i <= |entries|
      invariant h == HeldBy(entries[..i], strict)
    {
      ghost var before := h;
      assert entries[..i + 1][..i] == entries[..i];
      match entries[i] {
        case Stray(_) => h := h.(problems := h.problems + 1);
        case Object(key, retain, size, decoded, metadataProblems) =>
          if decoded.None? {
            h := h.(problems := h.problems + 1);
          } else {
            if strict {
              h := h.(problems := h.problems + metadataProblems);
            }
            ghost var checked := h;
            var lines := decoded.value;
            var n := 0;
            while n < |lines|
              invariant 0 <= n <= |lines|
              invariant h == ReadLines(checked, lines[..n], strict)
            {
              assert lines[..n + 1][..n] == lines[..n];
              h := ReadLine(h, lines[n], strict);
              n := n + 1;
            }
            assert lines[..n] == lines;
            if h.first == "" {
              h := h.(first := key);
            }
            h := h.(last := key, objects := h.objects + 1, count := h.count + |lines|, bytes := h.bytes + size);
            if retain > h.retain {
              h := h.(retain := retain);
            }
          }
      }
      assert h == ReadEntry(before, entries[i], strict);
      i := i + 1;
    }
    assert entries[..i] == entries;
  }

  lemma {:induction false} LinesReadAlike(h: Held, lines: seq<Line>)
    ensures ReadLines(h, lines, true).problems >= h.problems
    ensures ReadLines(h, lines, true).problems == h.problems ==> ReadLines(h, lines, true) == ReadLines(h, lines, false)
  {
    if lines != [] { LinesReadAlike(h, lines[..|lines| - 1]); }
  }

  /** Where the notary's strict reading finds no problem, the checker's lenient
      one gives the same: a clean hour means one thing to both. */
  lemma {:induction false} StrictIsLenient(entries: seq<Entry>)
    requires HeldBy(entries, true).problems == 0
    ensures HeldBy(entries, false) == HeldBy(entries, true)
  {
    if entries != [] {
      var rest, e := entries[..|entries| - 1], entries[|entries| - 1];
      var h := HeldBy(rest, true);
      if e.Object? && e.decoded.Some? {
        LinesReadAlike(h.(problems := h.problems + e.metadataProblems), e.decoded.value);
      }
      assert h.problems == 0;
      StrictIsLenient(rest);
    }
  }

  lemma {:induction false} LinesKeep(h: Held, lines: seq<Line>, strict: bool)
    ensures var r := ReadLines(h, lines, strict); r.retain == h.retain && r.objects == h.objects && r.first == h.first
    ensures AllLeaves(h.leaves) ==> AllLeaves(ReadLines(h, lines, strict).leaves)
  {
    if lines != [] { LinesKeep(h, lines[..|lines| - 1], strict); }
  }

  /** The retention of a clean hour is at least that of each of its objects. */
  lemma {:induction false} RetainsEach(entries: seq<Entry>, strict: bool, i: nat)
    requires i < |entries| && entries[i].Object? && HeldBy(entries, strict).problems == 0
    ensures entries[i].retain <= HeldBy(entries, strict).retain
  {
    var n := |entries| - 1;
    var rest, e := entries[..n], entries[n];
    var h := HeldBy(rest, strict);
    if e.Object? && e.decoded.Some? {
      var checked := if strict then h.(problems := h.problems + e.metadataProblems) else h;
      LinesKeep(checked, e.decoded.value, strict);
      ProblemsGrow(checked, e.decoded.value, strict);
    }
    if i < n { RetainsEach(rest, strict, i); }
  }

  lemma {:induction false} ProblemsGrow(h: Held, lines: seq<Line>, strict: bool)
    ensures ReadLines(h, lines, strict).problems >= h.problems
  {
    if lines != [] { ProblemsGrow(h, lines[..|lines| - 1], strict); }
  }

  lemma {:induction false} CleanLines(h: Held, lines: seq<Line>, strict: bool)
    requires ReadLines(h, lines, strict).problems == h.problems
    ensures var r := ReadLines(h, lines, strict);
            && |r.leaves| == |h.leaves| + |lines| && r.count == h.count && h.leaves <= r.leaves
            && (forall n :: 0 <= n < |lines| ==>
               lines[n].stated.Some? && r.leaves[|h.leaves| + n] == Leaf(lines[n].stated.value))
  {
    if lines != [] {
      var n := |lines| - 1;
      ProblemsGrow(h, lines[..n], strict);
      CleanLines(h, lines[..n], strict);
      assert forall k :: 0 <= k < n ==> lines[..n][k] == lines[k];
    }
  }

  /** What a clean reading says of an hour, apart from how it is read: every key
      is a record object's that decodes, there is a leaf for each record, the
      first and the last key are those of the first and the last object, and the
      retention is the longest of the objects'. */
  lemma {:induction false} CleanHour(entries: seq<Entry>, strict: bool)
    requires HeldBy(entries, strict).problems == 0 && forall i :: 0 <= i < |entries| ==> entries[i].key != ""
    ensures var h := HeldBy(entries, strict);
            && (forall i :: 0 <= i < |entries| ==> entries[i].Object? && entries[i].decoded.Some?)
            && h.objects == |entries| && h.count == |h.leaves|
            && h.first == (if entries == [] then "" else entries[0].key)
            && h.last == (if entries == [] then "" else entries[|entries| - 1].key)
            && (entries == [] ==> h.retain == 0)
            && (entries != [] ==> exists i :: 0 <= i < |entries| && entries[i].retain == h.retain)
  {
    if entries != [] {
      var n := |entries| - 1;
      var rest, e := entries[..n], entries[n];
      var h := HeldBy(rest, strict);
      assert forall i :: 0 <= i < n ==> rest[i] == entries[i];
      var lines := e.decoded.value;
      var checked := if strict then h.(problems := h.problems + e.metadataProblems) else h;
      LinesKeep(checked, lines, strict);
      ProblemsGrow(checked, lines, strict);
      CleanLines(checked, lines, strict);
      CleanHour(rest, strict);
      if n > 0 {
        var i :| 0 <= i < n && rest[i].retain == h.retain;
        assert entries[i].retain == h.retain;
      }
      assert entries[n].retain == e.retain;
    }
  }

  /** The leaves of an hour are leaves, so its root is of them alone. */
  lemma {:induction false} HeldLeaves(entries: seq<Entry>, strict: bool)
    ensures AllLeaves(HeldBy(entries, strict).leaves)
  {
    if entries != [] {
      var n := |entries| - 1;
      HeldLeaves(entries[..n], strict);
      var h, e := HeldBy(entries[..n], strict), entries[n];
      if e.Object? && e.decoded.Some? {
        LinesKeep(if strict then h.(problems := h.problems + e.metadataProblems) else h, e.decoded.value, strict);
      }
    }
  }

  // ----- the statement

  datatype Seal = Seal(profile: string, tenant: string, hour: int, count: nat, root: Hash,
                       first: string, last: string, prev: string, sealedAt: int, objects: Option<nat>)

  /** The bytes stored under a seal's key: a signed statement, or bytes that do
      not read as one, whether for the token's shape or for its payload's. */
  datatype Body = Signed(seal: Seal, signature: nat) | BadToken(raw: string) | BadPayload(raw: string)

  datatype ParseError = NotAToken | NotASeal

  datatype Parsed = Statement(seal: Seal) | Unreadable(error: ParseError)

  /** `seal.ParseSeal`. */
  function ParseSeal(b: Body): Parsed
  {
    match b
    case BadToken(_) => Unreadable(NotAToken)
    case BadPayload(_) => Unreadable(NotASeal)
    case Signed(s, _) => if s.profile == "" || s.tenant == "" then Unreadable(NotASeal) else Statement(s)
  }

  /** `seal.NewSeal`. */
  function NewSeal(profile: string, tenant: string, hour: int, h: Held, prev: string, at: int): Seal
  {
    Seal(profile, tenant, hour, h.count, Root(h.leaves), h.first, h.last, prev, at / SECOND * SECOND,
         if h.objects > 0 then Some(h.objects) else None)
  }

  datatype Stored = Stored(body: Body, retain: nat)

  /** One tenant's part of the bucket. The objects of an hour are in key order;
      an hour with none has no entry. `strayFirst` is a key of the tenant that
      sorts before every object and is no record key. */
  datatype Bucket = Bucket(objects: map<int, seq<Entry>>, strayFirst: bool, seals: map<int, Stored>)

  function ObjectsOf(objects: map<int, seq<Entry>>, hour: int): seq<Entry>
  {
    if hour in objects then objects[hour] else []
  }

  function Lookup(seals: map<int, Stored>, hour: int): Option<Body>
  {
    if hour in seals then Some(seals[hour].body) else None
  }

  lemma HasMember(s: set<int>)
    ensures s == {} || exists x :: x in s
  {
    if !exists x :: x in s { assert s == {}; }
  }

  ghost function Least(s: set<int>): (m: int)
    requires s != {}
    ensures m in s && forall x :: x in s ==> m <= x
    decreases |s|
  {
    HasMember(s);
    var x: int :| x in s;
    var rest := s - {x};
    assert s == rest + {x};
    if rest == {} then x
    else
      var m := Least(rest);
      if x < m then x else m
  }

  ghost predicate HasObjects(objects: map<int, seq<Entry>>)
  {
    objects.Keys != {} && forall h :: h in objects ==> objects[h] != []
  }

  /** The hour of the tenant's first object. */
  ghost function First(objects: map<int, seq<Entry>>): int
    requires HasObjects(objects)
  {
    Least(objects.Keys)
  }

  /** The newest hour a run may seal: it ended at least a settle window ago. */
  function LastSealable(now: int, settle: nat): int
  {
    HourOf(now - settle) - 1
  }

  /** What is due by the checker's reading was sealable when a run began that is
      no older than the grace. */
  lemma DueWasSealable(now: int, started: int, settle: nat, grace: nat)
    requires now - grace <= started
    ensures LastSealable(now, settle + grace) <= LastSealable(started, settle)
  {
    Monotonic(now - settle - grace, started - settle);
  }

  lemma Monotonic(a: int, b: int)
    requires a <= b
    ensures HourOf(a) <= HourOf(b)
  {
  }

  /** An hour that is sealable has ended. */
  lemma SealableHasEnded(hour: int, now: int, settle: nat)
    requires hour <= LastSealable(now, settle)
    ensures (hour + 1) * HOUR <= now / SECOND * SECOND
  {
    assert (hour + 1) * HOUR <= now;
    WholeSeconds((hour + 1) * 3600, now);
  }

  lemma WholeSeconds(n: int, now: int)
    requires n * SECOND <= now
    ensures n * SECOND <= now / SECOND * SECOND
  {
    assert n <= now / SECOND;
  }
}
