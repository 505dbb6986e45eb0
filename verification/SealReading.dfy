/** What a reading of an hour says, in terms of its keys and their lines alone:
    when it has a problem, and what it comes to. */
module SealReading {
  import opened Options
  import opened Merkle
  import opened Seals

  /** A line as a reading wants it: it states a hash and, read strictly, the hash
      is that of its record. */
  predicate CleanLine(line: Line, strict: bool)
  {
    line.stated.Some? && (strict ==> line.verifies)
  }

  predicate CleanLines(lines: seq<Line>, strict: bool)
  {
    forall n :: 0 <= n < |lines| ==> CleanLine(lines[n], strict)
  }

  /** A key as a reading wants it: a record object that decodes, with metadata
      that agrees when it is read strictly, and clean lines. */
  predicate CleanEntry(e: Entry, strict: bool)
  {
    && e.Object? && e.decoded.Some? && (strict ==> e.metadataProblems == 0)
    && CleanLines(e.decoded.value, strict)
  }

  predicate CleanEntries(entries: seq<Entry>, strict: bool)
  {
    forall i :: 0 <= i < |entries| ==> CleanEntry(entries[i], strict)
  }

  lemma {:induction false} LineProblems(h: Held, lines: seq<Line>, strict: bool)
    ensures ReadLines(h, lines, strict).problems >= h.problems
    ensures ReadLines(h, lines, strict).problems == h.problems <==> CleanLines(lines, strict)
  {
    if lines != [] {
      var n := |lines| - 1;
      LineProblems(h, lines[..n], strict);
      assert forall k :: 0 <= k < n ==> lines[..n][k] == lines[k];
    }
  }

  /** A reading has no problem exactly when every key is a record object that
      decodes and every line states a hash, and, read strictly, the metadata
      agrees and every hash is the record's own. */
  lemma {:induction false} NoProblemIsClean(entries: seq<Entry>, strict: bool)
    ensures HeldBy(entries, strict).problems == 0 <==> CleanEntries(entries, strict)
  {
    if entries != [] {
      var n := |entries| - 1;
      var rest, e := entries[..n], entries[n];
      NoProblemIsClean(rest, strict);
      assert forall i :: 0 <= i < n ==> rest[i] == entries[i];
      var h := HeldBy(rest, strict);
      if e.Object? && e.decoded.Some? {
        LineProblems(if strict then h.(problems := h.problems + e.metadataProblems) else h, e.decoded.value, strict);
      }
      hide CleanLines;
    }
  }

  // ----- what it comes to

  /** The objects of an hour that decode, in key order. */
  function Decoded(entries: seq<Entry>): (d: seq<Entry>)
    ensures forall e :: e in d <==> e in entries && e.Object? && e.decoded.Some?
    ensures |d| <= |entries|
  {
    if entries == [] then []
    else
      var n := |entries| - 1;
      assert entries == entries[..n] + [entries[n]];
      Decoded(entries[..n]) + if entries[n].Object? && entries[n].decoded.Some? then [entries[n]] else []
  }

  /** The hashes some lines state and, read strictly, verify, in order. */
  function Hashes(lines: seq<Line>, strict: bool): seq<Hash>
  {
    if lines == [] then []
    else
      var last := lines[|lines| - 1];
      Hashes(lines[..|lines| - 1], strict) + if CleanLine(last, strict) then [Leaf(last.stated.value)] else []
  }

  /** All lines of some objects, object by object. */
  function AllLines(objects: seq<Entry>): seq<Line>
  {
    if objects == [] then []
    else
      var last := objects[|objects| - 1];
      AllLines(objects[..|objects| - 1]) + if last.Object? && last.decoded.Some? then last.decoded.value else []
  }

  function Bytes(objects: seq<Entry>): nat
  {
    if objects == [] then 0
    else
      var last := objects[|objects| - 1];
      Bytes(objects[..|objects| - 1]) + if last.Object? then last.size else 0
  }

  lemma {:induction false} HashesConcat(a: seq<Line>, b: seq<Line>, strict: bool)
    ensures Hashes(a + b, strict) == Hashes(a, strict) + Hashes(b, strict)
  {
    hide CleanLine;
    if b == [] {
      assert a + b == a;
    } else {
      var n := |b| - 1;
      HashesConcat(a, b[..n], strict);
      assert (a + b)[..|a + b| - 1] == a + b[..n] && (a + b)[|a + b| - 1] == b[n];
    }
  }

  /** Clean lines give the hash each states, one for one. */
  lemma {:induction false} HashesOfClean(lines: seq<Line>, strict: bool)
    requires CleanLines(lines, strict)
    ensures |Hashes(lines, strict)| == |lines|
    ensures forall n :: 0 <= n < |lines| ==> Hashes(lines, strict)[n] == Leaf(lines[n].stated.value)
  {
    if lines != [] {
      var n := |lines| - 1;
      HashesOfClean(lines[..n], strict);
      assert forall k :: 0 <= k < n ==> lines[..n][k] == lines[k];
    }
  }

  lemma {:induction false} LinesGive(h: Held, lines: seq<Line>, strict: bool)
    ensures var r := ReadLines(h, lines, strict);
            r == h.(leaves := h.leaves + Hashes(lines, strict), problems := r.problems)
  {
    if lines != [] {
      LinesGive(h, lines[..|lines| - 1], strict);
    }
  }

  /** What some objects that decode come to: how many they are, their records and
      bytes, the hashes of their lines in key order and then line order, their
      first and last key, and their longest retention. */
  ghost predicate ComesTo(d: seq<Entry>, h: Held, strict: bool)
  {
    && h.objects == |d| && h.count == |AllLines(d)| && h.bytes == Bytes(d)
    && h.leaves == Hashes(AllLines(d), strict)
    && h.first == (if d == [] then "" else d[0].key) && h.last == (if d == [] then "" else d[|d| - 1].key)
    && RetainsLongest(d, h.retain)
  }

  ghost predicate RetainsLongest(d: seq<Entry>, retain: nat)
  {
    && (forall i :: 0 <= i < |d| ==> d[i].Object? && d[i].retain <= retain)
    && (if d == [] then retain == 0 else exists i :: 0 <= i < |d| && d[i].retain == retain)
  }

  lemma OneMoreRetained(d: seq<Entry>, retain: nat, e: Entry)
    requires RetainsLongest(d, retain) && e.Object?
    ensures RetainsLongest(d + [e], if e.retain > retain then e.retain else retain)
  {
    var more := d + [e];
    assert more[|d|] == e;
    if d != [] {
      var i :| 0 <= i < |d| && d[i].retain == retain;
      assert more[i] == d[i];
    }
  }

  lemma EntryGives(h: Held, e: Entry, strict: bool)
    requires e.Object? && e.decoded.Some?
    ensures var r := ReadEntry(h, e, strict);
            && r.leaves == h.leaves + Hashes(e.decoded.value, strict)
            && r.first == (if h.first == "" then e.key else h.first) && r.last == e.key
            && r.objects == h.objects + 1 && r.count == h.count + |e.decoded.value| && r.bytes == h.bytes + e.size
            && r.retain == (if e.retain > h.retain then e.retain else h.retain)
  {
    var checked := if strict then h.(problems := h.problems + e.metadataProblems) else h;
    LinesGive(checked, e.decoded.value, strict);
    hide ReadLines, Hashes;
  }

  lemma OneMoreRead(d: seq<Entry>, h: Held, e: Entry, strict: bool)
    requires ComesTo(d, h, strict) && e.Object? && e.decoded.Some? && (d != [] ==> d[0].key != "")
    ensures ComesTo(d + [e], ReadEntry(h, e, strict), strict)
  {
    hide ReadEntry, Hashes, AllLines, Bytes, RetainsLongest;
    EntryGives(h, e, strict);
    OneMoreObject(d, e, strict);
    OneMoreRetained(d, h.retain, e);
    var more := d + [e];
    assert more[|more| - 1] == e && (d != [] ==> more[0] == d[0]);
  }

  /** A reading, with problems or without, is what the objects that decode come
      to. */
  lemma {:induction false} ReadingIs(entries: seq<Entry>, strict: bool)
    requires forall i :: 0 <= i < |entries| ==> entries[i].key != ""
    ensures ComesTo(Decoded(entries), HeldBy(entries, strict), strict)
  {
    if entries != [] {
      var n := |entries| - 1;
      var rest, e := entries[..n], entries[n];
      ReadingIs(rest, strict);
      assert forall i :: 0 <= i < n ==> rest[i] == entries[i];
      var h, d := HeldBy(rest, strict), Decoded(rest);
      DecodedStep(entries);
      assert HeldBy(entries, strict) == ReadEntry(h, e, strict);
      hide Decoded, HeldBy, ComesTo;
      if e.Object? && e.decoded.Some? {
        if d != [] { assert d[0] in d && d[0] in rest; }
        OneMoreRead(d, h, e, strict);
      } else {
        SkipsOne(d, h, e, strict);
      }
    }
  }

  lemma DecodedStep(entries: seq<Entry>)
    requires entries != []
    ensures var n := |entries| - 1;
            var e := entries[n];
            Decoded(entries) ==
            if e.Object? && e.decoded.Some? then Decoded(entries[..n]) + [e] else Decoded(entries[..n])
  {
    assert Decoded(entries[..|entries| - 1]) + [] == Decoded(entries[..|entries| - 1]);
  }

  lemma SkipsOne(d: seq<Entry>, h: Held, e: Entry, strict: bool)
    requires ComesTo(d, h, strict) && !(e.Object? && e.decoded.Some?)
    ensures ComesTo(d, ReadEntry(h, e, strict), strict)
  {
    hide Hashes, AllLines, Bytes, RetainsLongest;
  }

  lemma OneMoreObject(d: seq<Entry>, e: Entry, strict: bool)
    requires e.Object? && e.decoded.Some?
    ensures AllLines(d + [e]) == AllLines(d) + e.decoded.value && Bytes(d + [e]) == Bytes(d) + e.size
    ensures Hashes(AllLines(d + [e]), strict) == Hashes(AllLines(d), strict) + Hashes(e.decoded.value, strict)
  {
    assert (d + [e])[..|d + [e]| - 1] == d;
    HashesConcat(AllLines(d), e.decoded.value, strict);
  }

  lemma {:induction false} CleanIsDecoded(entries: seq<Entry>, strict: bool)
    requires CleanEntries(entries, strict)
    ensures Decoded(entries) == entries
  {
    if entries != [] {
      var n := |entries| - 1;
      var rest := entries[..n];
      assert forall i :: 0 <= i < n ==> rest[i] == entries[i];
      CleanIsDecoded(rest, strict);
      DecodedStep(entries);
      assert CleanEntry(entries[n], strict);
      hide Decoded, CleanEntry;
      assert entries == rest + [entries[n]];
    }
  }

  lemma {:induction false} CleanHasCleanLines(entries: seq<Entry>, strict: bool)
    requires CleanEntries(entries, strict)
    ensures CleanLines(AllLines(entries), strict)
  {
    if entries != [] {
      var n := |entries| - 1;
      var rest := entries[..n];
      assert forall i :: 0 <= i < n ==> rest[i] == entries[i];
      CleanHasCleanLines(rest, strict);
      assert CleanEntry(entries[n], strict);
      BothClean(AllLines(rest), entries[n].decoded.value, strict);
    }
  }

  lemma BothClean(a: seq<Line>, b: seq<Line>, strict: bool)
    requires CleanLines(a, strict) && CleanLines(b, strict)
    ensures CleanLines(a + b, strict)
  {
    hide CleanLine;
  }

  /** The leaves of a clean hour are the hashes its lines state, one for one, in
      key order and then line order. */
  lemma CleanLeaves(entries: seq<Entry>, strict: bool)
    requires CleanEntries(entries, strict) && forall i :: 0 <= i < |entries| ==> entries[i].key != ""
    ensures var lines, leaves := AllLines(entries), HeldBy(entries, strict).leaves;
            && |leaves| == |lines|
            && forall n :: 0 <= n < |lines| ==> lines[n].stated.Some? && leaves[n] == Leaf(lines[n].stated.value)
  {
    hide HeldBy, Hashes, RetainsLongest, Decoded;
    ReadingIs(entries, strict);
    CleanIsDecoded(entries, strict);
    CleanHasCleanLines(entries, strict);
    HashesOfClean(AllLines(entries), strict);
  }

  // ----- hours

  /** An hour may be sealed exactly when a settle window has passed since it
      ended. */
  lemma SealableIs(hour: int, now: int, settle: nat)
    ensures hour <= LastSealable(now, settle) <==> (hour + 1) * HOUR + settle <= now
  {
  }
}
