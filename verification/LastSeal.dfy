/** `store.LastSeal`: down the newest year, month and day by common prefix, and
    back to the next group when one holds no seal. */
module LastSeal {
  import opened Options
  import opened Lex
  import opened Text
  import opened Calendar
  import opened Layout
  import opened Walk

  function Slashes(s: string): nat
  {
    if s == "" then 0 else (if s[0] == '/' then 1 else 0) + Slashes(s[1..])
  }

  /** The first part of a string, with the slash that ends it. */
  function Head(s: string): (h: string)
    requires 0 < Slashes(s)
    ensures HasPrefix(s, h) && Slashes(h) == 1 && h[|h| - 1] == '/'
    ensures Slashes(s[|h|..]) == Slashes(s) - 1
    ensures '/' !in h[..|h| - 1]
  {
    if s[0] == '/' then
      assert "/"[1..] == "";
      "/"
    else
      var t := Head(s[1..]);
      var h := [s[0]] + t;
      assert h[1..] == t && s == [s[0]] + s[1..] && s[|h|..] == s[1..][|t|..];
      assert h[..|h| - 1] == [s[0]] + t[..|t| - 1];
      h
  }

  /** One group of `Store.Prefixes`: a key one level or more under a prefix,
      cut after the next slash. */
  predicate InGroup(k: string, prefix: string, group: string)
  {
    HasPrefix(k, prefix) && 0 < Slashes(k[|prefix|..]) && group == prefix + Head(k[|prefix|..])
  }

  function Insert(groups: seq<string>, g: string): (r: seq<string>)
    requires Increasing(groups)
    ensures Increasing(r) && forall x :: x in r <==> x == g || x in groups
  {
    if groups == [] then [g]
    else if g == groups[0] then groups
    else if Less(g, groups[0]) then
      BelowAll(g, groups);
      [g] + groups
    else
      Total(g, groups[0]);
      var rest := Insert(groups[1..], g);
      BelowTail(groups, rest, g);
      [groups[0]] + rest
  }

  lemma BelowAll(g: string, groups: seq<string>)
    requires Increasing(groups) && groups != [] && Less(g, groups[0])
    ensures forall i :: 0 <= i < |groups| ==> Less(g, groups[i])
  {
    forall i | 0 < i < |groups| ensures Less(g, groups[i]) { Transitive(g, groups[0], groups[i]); }
  }

  lemma BelowTail(groups: seq<string>, rest: seq<string>, g: string)
    requires Increasing(groups) && groups != [] && Less(groups[0], g)
    requires forall x :: x in rest <==> x == g || x in groups[1..]
    ensures forall i :: 0 <= i < |rest| ==> Less(groups[0], rest[i])
    ensures forall x :: x in [groups[0]] + rest <==> x == g || x in groups
  {
    forall i | 0 <= i < |rest| ensures Less(groups[0], rest[i]) {
      assert rest[i] in rest;
      if rest[i] != g {
        var j :| 0 <= j < |groups[1..]| && groups[1..][j] == rest[i];
        assert groups[j + 1] == rest[i];
      }
    }
    assert groups == [groups[0]] + groups[1..];
  }

  /** `Store.Prefixes`: what keys have next after a prefix, up to and with the
      slash, in order and each once. */
  function Prefixes(keys: seq<string>, prefix: string): (r: seq<string>)
    ensures Increasing(r)
    ensures forall g :: g in r <==> exists k :: k in keys && InGroup(k, prefix, g)
  {
    if keys == [] then []
    else
      var rest := Prefixes(keys[1..], prefix);
      var k := keys[0];
      assert keys == [k] + keys[1..];
      if HasPrefix(k, prefix) && 0 < Slashes(k[|prefix|..]) then
        var g := prefix + Head(k[|prefix|..]);
        assert InGroup(k, prefix, g);
        Insert(rest, g)
      else rest
  }

  /** The well-formed seals at least `depth` levels under a prefix. */
  predicate SealUnder(k: string, prefix: string, depth: nat)
  {
    HasPrefix(k, prefix) && depth <= Slashes(k[|prefix|..]) && ParseSealKey(k).Some?
  }

  /** The greatest of a store's keys of a kind, or none when there is none. */
  ghost predicate Greatest(e: Option<string>, keys: seq<string>, prefix: string, depth: nat)
  {
    match e
    case None => forall k :: k in keys ==> !SealUnder(k, prefix, depth)
    case Some(m) => m in keys && SealUnder(m, prefix, depth)
                    && forall k :: k in keys && SealUnder(k, prefix, depth) ==> AtMost(k, m)
  }

  lemma UnderGroup(k: string, prefix: string, depth: nat, g: string)
    requires 0 < depth && InGroup(k, prefix, g)
    ensures SealUnder(k, prefix, depth) <==> SealUnder(k, g, depth - 1)
  {
    hide ParseSealKey;
    var rest := k[|prefix|..];
    assert k == prefix + rest;
    assert k[|g|..] == rest[|Head(rest)|..];
    assert k[..|g|] == g;
  }

  lemma SealHasGroup(k: string, prefix: string, depth: nat) returns (g: string)
    requires 0 < depth && SealUnder(k, prefix, depth)
    ensures InGroup(k, prefix, g) && SealUnder(k, g, depth - 1)
  {
    g := prefix + Head(k[|prefix|..]);
    UnderGroup(k, prefix, depth, g);
  }

  /** Groups hold their keys apart: what is under the earlier of two groups
      sorts before what is under the later. */
  lemma GroupsHoldOrder(prefix: string, g: string, h: string, a: string, b: string)
    requires InGroup(a, prefix, g) && InGroup(b, prefix, h) && Less(g, h)
    ensures Less(a, b)
  {
    hide Slashes, Head;
    var x, y := a[|prefix|..], b[|prefix|..];
    var s, t := Head(x), Head(y);
    CommonPrefix(prefix, s, t);
    PartsDecide(s, t, x[|s|..], y[|t|..]);
    assert x == s + x[|s|..] && y == t + y[|t|..];
    CommonPrefix(prefix, x, y);
    assert a == prefix + x && b == prefix + y;
  }

  ghost predicate OnePart(s: string)
  {
    s != "" && s[|s| - 1] == '/' && '/' !in s[..|s| - 1]
  }

  lemma SlashEnds(s: string)
    requires OnePart(s)
    ensures |s| == 1 <==> s[0] == '/'
  {
    if 1 < |s| { assert s[..|s| - 1][0] == s[0]; }
  }

  lemma {:induction false} PartsDecide(s: string, t: string, x: string, y: string)
    requires OnePart(s) && OnePart(t) && Less(s, t)
    ensures Less(s + x, t + y)
  {
    SlashEnds(s);
    SlashEnds(t);
    if s[0] == t[0] {
      if |s| != 1 {
        assert s[1..][..|s| - 2] == s[..|s| - 1][1..];
        assert t[1..][..|t| - 2] == t[..|t| - 1][1..];
        PartsDecide(s[1..], t[1..], x, y);
        assert (s + x)[1..] == s[1..] + x && (t + y)[1..] == t[1..] + y;
      }
    }
  }

  /** The descent: at the bottom a listing, above it the groups from the newest
      down until one of them answers. */
  method Descend(keys: seq<string>, prefix: string, depth: nat) returns (e: Option<string>)
    requires Increasing(keys) && depth <= 3
    ensures Greatest(e, keys, prefix, 3 - depth)
    decreases 3 - depth
  {
    hide ParseSealKey, Slashes;
    if depth == 3 {
      e := NewestListed(keys, prefix);
      return;
    }
    var groups := Prefixes(keys, prefix);
    var i := |groups|;
    while i > 0
      invariant 0 <= i <= |groups|
      invariant forall j, k :: i <= j < |groups| && k in keys ==> !SealUnder(k, groups[j], 2 - depth)
    {
      i := i - 1;
      e := Descend(keys, groups[i], depth + 1);
      if e.Some? {
        NewestGroupWins(e, keys, prefix, 3 - depth, groups, i);
        return;
      }
    }
    e := None;
    NoGroupNoSeal(keys, prefix, 3 - depth, groups);
  }

  lemma SealHasListedGroup(keys: seq<string>, prefix: string, depth: nat, k: string) returns (j: nat)
    requires 0 < depth && k in keys && SealUnder(k, prefix, depth)
    ensures j < |Prefixes(keys, prefix)| && InGroup(k, prefix, Prefixes(keys, prefix)[j])
    ensures SealUnder(k, Prefixes(keys, prefix)[j], depth - 1)
  {
    hide ParseSealKey;
    var groups := Prefixes(keys, prefix);
    var g := SealHasGroup(k, prefix, depth);
    assert g in groups;
    j :| 0 <= j < |groups| && groups[j] == g;
  }

  lemma NoGroupNoSeal(keys: seq<string>, prefix: string, depth: nat, groups: seq<string>)
    requires 0 < depth && groups == Prefixes(keys, prefix)
    requires forall j, k :: 0 <= j < |groups| && k in keys ==> !SealUnder(k, groups[j], depth - 1)
    ensures Greatest(None, keys, prefix, depth)
  {
    hide ParseSealKey;
    forall k | k in keys ensures !SealUnder(k, prefix, depth) {
      if SealUnder(k, prefix, depth) {
        var j := SealHasListedGroup(keys, prefix, depth, k);
        assert false;
      }
    }
  }

  method NewestListed(keys: seq<string>, prefix: string) returns (e: Option<string>)
    requires Increasing(keys)
    ensures Greatest(e, keys, prefix, 0)
  {
    hide ParseSealKey;
    var entries := Under(keys, prefix, "");
    var i := |entries|;
    while i > 0
      invariant 0 <= i <= |entries|
      invariant forall j :: i <= j < |entries| ==> ParseSealKey(entries[j]).None?
    {
      i := i - 1;
      if ParseSealKey(entries[i]).Some? {
        e := Some(entries[i]);
        LastListed(keys, prefix, entries, i);
        return;
      }
    }
    e := None;
    forall k | k in keys ensures !SealUnder(k, prefix, 0) {
      Listed(keys, prefix, entries, k);
    }
  }

  lemma ParsedIsNotEmpty(k: string)
    requires ParseSealKey(k).Some?
    ensures Less("", k)
  {
  }

  lemma Listed(keys: seq<string>, prefix: string, entries: seq<string>, k: string)
    requires entries == Under(keys, prefix, "") && k in keys
    ensures SealUnder(k, prefix, 0) ==> k in entries
  {
    hide ParseSealKey;
    if SealUnder(k, prefix, 0) { ParsedIsNotEmpty(k); }
  }

  lemma LastListed(keys: seq<string>, prefix: string, entries: seq<string>, i: nat)
    requires Increasing(keys) && entries == Under(keys, prefix, "") && i < |entries|
    requires ParseSealKey(entries[i]).Some?
    requires forall j :: i < j < |entries| ==> ParseSealKey(entries[j]).None?
    ensures Greatest(Some(entries[i]), keys, prefix, 0)
  {
    hide ParseSealKey;
    assert entries[i] in entries;
    forall k | k in keys && SealUnder(k, prefix, 0) ensures AtMost(k, entries[i]) {
      Listed(keys, prefix, entries, k);
      var j :| 0 <= j < |entries| && entries[j] == k;
      assert j <= i;
      AtMostInOrder(entries, j, i);
    }
  }

  lemma NewestGroupWins(e: Option<string>, keys: seq<string>, prefix: string, depth: nat, groups: seq<string>, i: nat)
    requires 0 < depth && groups == Prefixes(keys, prefix) && i < |groups|
    requires e.Some? && Greatest(e, keys, groups[i], depth - 1)
    requires forall j, k :: i < j < |groups| && k in keys ==> !SealUnder(k, groups[j], depth - 1)
    ensures Greatest(e, keys, prefix, depth)
  {
    hide ParseSealKey, Prefixes, Less, Slashes;
    var m := e.value;
    assert groups[i] in groups;
    var w :| w in keys && InGroup(w, prefix, groups[i]);
    InSameGroup(w, m, prefix, groups[i]);
    UnderGroup(m, prefix, depth, groups[i]);
    forall k | k in keys && SealUnder(k, prefix, depth) ensures AtMost(k, m) {
      var j := SealHasListedGroup(keys, prefix, depth, k);
      if j < i { GroupsHoldOrder(prefix, groups[j], groups[i], k, m); }
    }
  }

  lemma InSameGroup(w: string, m: string, prefix: string, g: string)
    requires InGroup(w, prefix, g) && HasPrefix(m, g)
    ensures InGroup(m, prefix, g)
  {
    var s := g[|prefix|..];
    assert s == Head(w[|prefix|..]);
    var x := m[|prefix|..];
    assert m == g + m[|g|..] && x == s + m[|g|..];
    HeadOfPart(s, m[|g|..]);
  }

  lemma {:induction false} HeadOfPart(s: string, x: string)
    requires OnePart(s)
    ensures 0 < Slashes(s + x) && Head(s + x) == s
  {
    if |s| == 1 {
      assert s == "/";
    } else {
      assert s[..|s| - 1][0] == s[0];
      assert s[1..][..|s| - 2] == s[..|s| - 1][1..];
      HeadOfPart(s[1..], x);
      assert (s + x)[1..] == s[1..] + x;
    }
  }

  lemma {:induction false} SlashesConcat(a: string, b: string)
    ensures Slashes(a + b) == Slashes(a) + Slashes(b)
  {
    if a == "" {
      assert a + b == b;
    } else {
      SlashesConcat(a[1..], b);
      assert (a + b)[1..] == a[1..] + b;
    }
  }

  lemma {:induction false} NoSlashNoSlashes(s: string)
    requires NoSlash(s)
    ensures Slashes(s) == 0
  {
    if s != "" { NoSlashNoSlashes(s[1..]); }
  }

  lemma PathSlashes(f: Fields, e: string)
    requires Slashless(f) && NoSlash(e)
    ensures Slashes(Path(f) + e) == 3
  {
    NoSlashNoSlashes(f.y);
    NoSlashNoSlashes(f.mo);
    NoSlashNoSlashes(f.d);
    NoSlashNoSlashes(f.h);
    NoSlashNoSlashes(e);
    assert "/"[1..] == "" && Slashes("/") == 1;
    SlashesConcat(f.d + "/", f.h);
    SlashesConcat(f.d, "/");
    SlashesConcat(f.mo + "/", f.d + "/" + f.h);
    SlashesConcat(f.mo, "/");
    SlashesConcat(f.y + "/", f.mo + "/" + (f.d + "/" + f.h));
    SlashesConcat(f.y, "/");
    SlashesConcat(Path(f), e);
  }

  /** A tenant's seal is three levels under the tenant's prefix. */
  lemma SealIsThreeDown(o: SealObject)
    requires WellFormedSeal(o)
    ensures SealUnder(SealKey(o.profile, o.tenant, o.hour), SealTenantPrefix(o.profile, o.tenant), 3)
  {
    hide Slashes, ParseSealKey, HourPath;
    var key, prefix := SealKey(o.profile, o.tenant, o.hour), SealTenantPrefix(o.profile, o.tenant);
    SealKeyExact(key, o);
    SealIsUnderTenant(o);
    assert key[|prefix|..] == HourPath(o.hour) + SEAL_EXT;
    ThreeDown(o.hour);
  }

  lemma ThreeDown(hour: int)
    ensures Slashes(HourPath(hour) + SEAL_EXT) == 3
  {
    hide Slashes, FromHour;
    var f := Printed(FromHour(hour));
    PrintedIsSlashless(FromHour(hour));
    assert '/' !in SEAL_EXT;
    PathSlashes(f, SEAL_EXT);
  }

  /** An hour that has a seal, and after which no hour has one. */
  ghost predicate IsNewest(newest: int, keys: seq<string>, profile: string, tenant: string)
  {
    && FourDigitYear(newest) && SealKey(profile, tenant, newest) in keys
    && forall hour :: FourDigitYear(hour) && SealKey(profile, tenant, hour) in keys ==> hour <= newest
  }

  /** Whatever stray keys and prefixes are there, the descent ends on the seal
      of the tenant's greatest hour, and on none exactly when there is none. */
  method Newest(keys: seq<string>, profile: string, tenant: string) returns (e: Option<string>)
    requires Increasing(keys) && Component(profile) && Component(tenant)
    ensures e.None? <==> forall hour :: FourDigitYear(hour) ==> SealKey(profile, tenant, hour) !in keys
    ensures e.Some? ==>
            exists newest :: IsNewest(newest, keys, profile, tenant) && e.value == SealKey(profile, tenant, newest)
  {
    e := Descend(keys, SealTenantPrefix(profile, tenant), 0);
    GreatestIsNewest(e, keys, profile, tenant);
  }

  lemma GreatestIsNewest(e: Option<string>, keys: seq<string>, profile: string, tenant: string)
    requires Component(profile) && Component(tenant)
    requires Greatest(e, keys, SealTenantPrefix(profile, tenant), 3)
    ensures e.None? <==> forall hour :: FourDigitYear(hour) ==> SealKey(profile, tenant, hour) !in keys
    ensures e.Some? ==>
            exists newest :: IsNewest(newest, keys, profile, tenant) && e.value == SealKey(profile, tenant, newest)
  {
    hide ParseSealKey, SealKey, FourDigitYear, Slashes, SealTenantPrefix;
    forall hour | FourDigitYear(hour)
      ensures SealUnder(SealKey(profile, tenant, hour), SealTenantPrefix(profile, tenant), 3)
    {
      SealIsThreeDown(SealObject(profile, tenant, hour));
    }
    if e.Some? {
      var o := ParseSealKey(e.value).value;
      SealKeyExact(e.value, o);
      TenantOfSeal(e.value, o, profile, tenant);
      forall hour | FourDigitYear(hour) && SealKey(profile, tenant, hour) in keys ensures hour <= o.hour {
        SealKeyOrder(profile, tenant, o.hour, hour);
        assert AtMost(SealKey(profile, tenant, hour), e.value);
        NotBoth(SealKey(profile, tenant, hour), e.value);
      }
      assert IsNewest(o.hour, keys, profile, tenant);
    }
  }

  /** A key under a tenant's prefix names that tenant. */
  lemma TenantOfSeal(k: string, o: SealObject, profile: string, tenant: string)
    requires Component(profile) && Component(tenant) && ParseSealKey(k) == Some(o)
    requires HasPrefix(k, SealTenantPrefix(profile, tenant))
    ensures o.profile == profile && o.tenant == tenant
  {
    hide Split, FromHour, HourPath;
    var prefix := SealTenantPrefix(profile, tenant);
    var rest := k[|prefix|..];
    assert k == prefix + rest;
    assert k[|SEALS|..] == profile + "/" + (tenant + "/" + rest);
    SplitCons(tenant, rest);
    SplitCons(profile, tenant + "/" + rest);
  }
}
