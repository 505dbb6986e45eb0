/** The keys of the archive: store/layout.go, store/seals.go and the reading
    half of internal/ulid. Strings are byte strings; an hour is counted as in
    `Calendar`. */
module Layout {
  import opened Options
  import opened Lex
  import opened Text
  import opened Calendar

  const RECORDS := "records/"
  const SEALS := "seals/"
  const SEAL_EXT := ".jws"

  /** The hour of 00:00 on 1 January 1970. */
  const EPOCH_HOUR := 17268672
  const HOUR_MILLIS := 3600000

  // ----- ULIDs

  const ALPHABET := "0123456789ABCDEFGHJKMNPQRSTVWXYZ"

  function IndexIn(s: string, c: char): (i: int)
    ensures -1 <= i < |s|
    ensures i == -1 <==> c !in s
    ensures 0 <= i ==> s[i] == c && c !in s[..i]
  {
    if s == "" then -1
    else if s[0] == c then 0
    else
      var i := IndexIn(s[1..], c);
      assert s == [s[0]] + s[1..];
      if i < 0 then -1 else
        assert s[..i + 1] == [s[0]] + s[1..][..i];
        i + 1
  }

  predicate ValidULID(s: string)
  {
    |s| == 26 && s[0] <= '7' && forall i :: 0 <= i < |s| ==> s[i] in ALPHABET
  }

  function Base32(s: string): (n: nat)
    requires forall i :: 0 <= i < |s| ==> s[i] in ALPHABET
  {
    if s == "" then 0 else 32 * Base32(s[..|s| - 1]) + IndexIn(ALPHABET, s[|s| - 1])
  }

  /** The hour a ULID's moment falls in. */
  function HourOfULID(s: string): int
    requires ValidULID(s)
  {
    Base32(s[..10]) / HOUR_MILLIS + EPOCH_HOUR
  }

  /** A ULID's first ten characters are milliseconds from the beginning of 1970, and
      its hour is the one they fall in. */
  lemma ULIDCountsFrom1970(s: string)
    requires ValidULID(s)
    ensures var since := HourOfULID(s) - Date(1970, 1, 1, 0);
            since * 3_600_000 <= Base32(s[..10]) < (since + 1) * 3_600_000
  {
    hide Base32;
    assert Date(1970, 1, 1, 0) == EPOCH_HOUR;
  }

  // ----- hours in keys

  /** The four fields of an hour, as they stand between slashes. */
  datatype Fields = Fields(y: string, mo: string, d: string, h: string)

  function Path(f: Fields): string
  {
    f.y + "/" + (f.mo + "/" + (f.d + "/" + f.h))
  }

  predicate Slashless(f: Fields)
  {
    NoSlash(f.y) && NoSlash(f.mo) && NoSlash(f.d) && NoSlash(f.h)
  }

  predicate Digital(f: Fields)
  {
    && |f.y| == 4 && |f.mo| == |f.d| == |f.h| == 2
    && AllDigits(f.y) && AllDigits(f.mo) && AllDigits(f.d) && AllDigits(f.h)
  }

  function Printed(c: Civil): Fields
  {
    Fields(PadInt(c.year, 4), PadInt(c.month, 2), PadInt(c.day, 2), PadInt(c.hour, 2))
  }

  function Read(f: Fields): Civil
    requires Digital(f)
  {
    Civil(Value(f.y), Value(f.mo), Value(f.d), Value(f.h))
  }

  /** An hour as Go's layout 2006/01/02/15 writes it. */
  function HourPath(hour: int): string
  {
    Path(Printed(FromHour(hour)))
  }

  /** The hours whose year is written in four digits. */
  predicate FourDigitYear(hour: int)
  {
    0 <= FromHour(hour).year <= 9999
  }

  /** Reads the four fields of an hour: digits of the right widths, and a date
      that `time.Date` did not have to normalise. */
  function ParseHour(f: Fields): Option<int>
  {
    if Digital(f) then
      var c := Read(f);
      var hour := Date(c.year, c.month, c.day, c.hour);
      if HourPath(hour) == Path(f) then Some(hour) else None
    else None
  }

  lemma DigitsHaveNoSlash(s: string)
    requires AllDigits(s)
    ensures NoSlash(s)
  {
  }

  lemma SignedDigits(n: int, w: nat)
    ensures NoSlash(PadInt(n, w))
  {
    DigitsHaveNoSlash(Pad(if n < 0 then -n else n, w));
  }

  lemma PrintedIsSlashless(c: Civil)
    ensures Slashless(Printed(c))
  {
    SignedDigits(c.year, 4);
    SignedDigits(c.month, 2);
    SignedDigits(c.day, 2);
    SignedDigits(c.hour, 2);
  }

  lemma PathParts(f: Fields)
    requires Slashless(f)
    ensures Split(Path(f)) == [f.y, f.mo, f.d, f.h]
  {
    SplitOne(f.h);
    SplitCons(f.d, f.h);
    SplitCons(f.mo, f.d + "/" + f.h);
    SplitCons(f.y, f.mo + "/" + (f.d + "/" + f.h));
  }

  lemma PathInjective(f: Fields, g: Fields)
    requires Slashless(f) && Slashless(g) && Path(f) == Path(g)
    ensures f == g
  {
    PathParts(f);
    PathParts(g);
    assert [f.y, f.mo, f.d, f.h][0] == g.y && [f.y, f.mo, f.d, f.h][1] == g.mo;
    assert [f.y, f.mo, f.d, f.h][2] == g.d && [f.y, f.mo, f.d, f.h][3] == g.h;
  }

  lemma SignIsNoDigit(n: int, w: nat)
    ensures n < 0 ==> !AllDigits(PadInt(n, w))
  {
    if n < 0 { assert !IsDigit(PadInt(n, w)[0]); }
  }

  lemma Widths()
    ensures Pow10(4) == 10000 && Pow10(2) == 100
  {
    assert Pow10(3) == 10 * Pow10(2);
  }

  /** Printing and reading the fields of a date are inverse. */
  lemma PrintedThenRead(c: Civil)
    requires Exists(c) && 0 <= c.year <= 9999
    ensures Digital(Printed(c)) && Read(Printed(c)) == c
  {
    hide Pad, Value;
    Widths();
    PadLength(c.year, 4);
    PadLength(c.month, 2);
    PadLength(c.day, 2);
    PadLength(c.hour, 2);
  }

  lemma ReadThenPrinted(f: Fields)
    requires Digital(f)
    ensures Printed(Read(f)) == f && 0 <= Read(f).year <= 9999
  {
    PadOfValue(f.y);
    PadOfValue(f.mo);
    PadOfValue(f.d);
    PadOfValue(f.h);
    ValueBound(f.y);
    Widths();
  }

  lemma PrintedDigital(c: Civil)
    requires Digital(Printed(c))
    ensures Read(Printed(c)) == c
  {
    SignIsNoDigit(c.year, 4);
    SignIsNoDigit(c.month, 2);
    SignIsNoDigit(c.day, 2);
    SignIsNoDigit(c.hour, 2);
  }

  lemma DigitalIsSlashless(f: Fields)
    requires Digital(f)
    ensures Slashless(f)
  {
    DigitsHaveNoSlash(f.y);
    DigitsHaveNoSlash(f.mo);
    DigitsHaveNoSlash(f.d);
    DigitsHaveNoSlash(f.h);
  }

  /** The parser accepts exactly the dates and hours of day that exist, as the
      hour they name. */
  lemma ParseHourAccepts(f: Fields)
    ensures ParseHour(f).Some? <==> Digital(f) && Exists(Read(f))
    ensures ParseHour(f).Some? ==> FromHour(ParseHour(f).value) == Read(f)
  {
    if Digital(f) {
      var c := Read(f);
      var hour := Date(c.year, c.month, c.day, c.hour);
      WriteBack(c);
      ReadThenPrinted(f);
      if HourPath(hour) == Path(f) {
        PrintedIsSlashless(FromHour(hour));
        DigitalIsSlashless(f);
        PathInjective(Printed(FromHour(hour)), f);
        PrintedDigital(FromHour(hour));
      }
    }
  }

  /** The fields that read as an hour are exactly those that write it. */
  lemma ParseHourExact(f: Fields, hour: int)
    ensures ParseHour(f) == Some(hour) <==> FourDigitYear(hour) && f == Printed(FromHour(hour))
  {
    ParseHourAccepts(f);
    if ParseHour(f) == Some(hour) { ReadThenPrinted(f); }
    if FourDigitYear(hour) && f == Printed(FromHour(hour)) { PrintedThenRead(FromHour(hour)); }
  }

  lemma FieldThenRest(a: nat, b: nat, w: nat, x: string, y: string)
    requires a <= b < Pow10(w)
    requires a == b ==> Less(x, y)
    ensures Less(Pad(a, w) + "/" + x, Pad(b, w) + "/" + y)
  {
    assert Pad(a, w) + "/" + x == Pad(a, w) + ("/" + x) && Pad(b, w) + "/" + y == Pad(b, w) + ("/" + y);
    if a == b {
      CommonPrefix("/", x, y);
      CommonPrefix(Pad(a, w), "/" + x, "/" + y);
    } else {
      PadLength(a, w);
      PadLength(b, w);
      PadOrder(a, b, w);
      Irreflexive(Pad(a, w));
      Decided(Pad(a, w), Pad(b, w), "/" + x, "/" + y);
    }
  }

  lemma FieldsInOrder(a: Civil, b: Civil)
    requires Exists(a) && Exists(b) && Earlier(a, b)
    requires 0 <= a.year <= 9999 && 0 <= b.year <= 9999
    ensures Less(Path(Printed(a)), Path(Printed(b)))
  {
    Widths();
    var f, g := Printed(a), Printed(b);
    var sameYear, sameMonth, sameDay := a.year == b.year, a.month == b.month, a.day == b.day;
    if sameYear && sameMonth && sameDay { PadOrder(a.hour, b.hour, 2); }
    if sameYear && sameMonth { FieldThenRest(a.day, b.day, 2, f.h, g.h); }
    if sameYear { FieldThenRest(a.month, b.month, 2, f.d + "/" + f.h, g.d + "/" + g.h); }
    FieldThenRest(a.year, b.year, 4, f.mo + "/" + (f.d + "/" + f.h), g.mo + "/" + (g.d + "/" + g.h));
  }

  lemma HourPathLength(a: int)
    requires FourDigitYear(a)
    ensures |HourPath(a)| == 13
  {
    PrintedThenRead(FromHour(a));
  }

  /** Hours in keys sort as they follow one another, whatever comes before both
      and after each. */
  lemma HourPathOrder(prefix: string, a: int, b: int, x: string, y: string)
    requires FourDigitYear(a) && FourDigitYear(b) && a < b
    ensures Less(prefix + HourPath(a) + x, prefix + HourPath(b) + y)
  {
    HourPathLength(a);
    HourPathLength(b);
    OrderOfHours(a, b);
    FieldsInOrder(FromHour(a), FromHour(b));
    PathsDecide(prefix, HourPath(a), HourPath(b), x, y);
  }

  lemma PathsDecide(prefix: string, a: string, b: string, x: string, y: string)
    requires |a| == |b| && Less(a, b)
    ensures Less(prefix + a + x, prefix + b + y)
  {
    Irreflexive(a);
    Decided(a, b, x, y);
    CommonPrefix(prefix, a + x, b + y);
    assert prefix + a + x == prefix + (a + x) && prefix + b + y == prefix + (b + y);
  }

  // ----- record keys

  datatype RecordObject = RecordObject(profile: string, tenant: string, hour: int, ulid: string)

  function TenantPrefix(profile: string, tenant: string): string
  {
    RECORDS + profile + "/" + tenant + "/"
  }

  function HourPrefix(profile: string, tenant: string, hour: int): string
  {
    TenantPrefix(profile, tenant) + HourPath(hour) + "/"
  }

  function RecordKey(profile: string, tenant: string, hour: int, id: string): string
  {
    HourPrefix(profile, tenant, hour) + id
  }

  function ParseRecordKey(key: string): Option<RecordObject>
  {
    if !HasPrefix(key, RECORDS) then None else
    var parts := Split(key[|RECORDS|..]);
    if |parts| != 7 || parts[0] == "" || parts[1] == "" || !ValidULID(parts[6]) then None else
    match ParseHour(Fields(parts[2], parts[3], parts[4], parts[5]))
    case None => None
    case Some(hour) =>
      if HourOfULID(parts[6]) == hour then Some(RecordObject(parts[0], parts[1], hour, parts[6])) else None
  }

  /** What a profile or a tenant in a key is: not empty, and without a slash. */
  predicate Component(s: string)
  {
    s != "" && NoSlash(s)
  }

  predicate WellFormedRecord(o: RecordObject)
  {
    && Component(o.profile) && Component(o.tenant)
    && ValidULID(o.ulid) && HourOfULID(o.ulid) == o.hour
    && FourDigitYear(o.hour)
  }

  lemma ULIDHasNoSlash(s: string)
    requires ValidULID(s)
    ensures NoSlash(s)
  {
    assert '/' !in ALPHABET;
  }

  lemma RecordRegroup(r: string, p: string, t: string, f: Fields, id: string)
    ensures var key := r + p + "/" + t + "/" + Path(f) + "/" + id;
            HasPrefix(key, r) && key == r + key[|r|..]
            && key[|r|..] == p + "/" + (t + "/" + (Path(f) + "/" + id))
  {
  }

  lemma RecordParts(p: string, t: string, f: Fields, id: string)
    requires NoSlash(p) && NoSlash(t) && Slashless(f) && NoSlash(id)
    ensures Split(p + "/" + (t + "/" + (Path(f) + "/" + id))) == [p, t, f.y, f.mo, f.d, f.h, id]
  {
    PathParts(f);
    SplitOne(id);
    SplitAfter(Path(f), id);
    SplitCons(t, Path(f) + "/" + id);
    SplitCons(p, t + "/" + (Path(f) + "/" + id));
  }

  lemma RecordKeyParts(o: RecordObject, f: Fields)
    requires NoSlash(o.profile) && NoSlash(o.tenant) && NoSlash(o.ulid) && f == Printed(FromHour(o.hour))
    ensures var key := RecordKey(o.profile, o.tenant, o.hour, o.ulid);
            HasPrefix(key, RECORDS) && key == RECORDS + key[|RECORDS|..] &&
            Split(key[|RECORDS|..]) == [o.profile, o.tenant, f.y, f.mo, f.d, f.h, o.ulid]
  {
    PrintedIsSlashless(FromHour(o.hour));
    RecordRegroup(RECORDS, o.profile, o.tenant, f, o.ulid);
    RecordParts(o.profile, o.tenant, f, o.ulid);
  }

  lemma RecordKeyParsed(key: string, o: RecordObject)
    requires ParseRecordKey(key) == Some(o)
    ensures WellFormedRecord(o) && key == RecordKey(o.profile, o.tenant, o.hour, o.ulid)
  {
    var parts := Split(key[|RECORDS|..]);
    var f := Fields(parts[2], parts[3], parts[4], parts[5]);
    ParseHourExact(f, o.hour);
    KeyFromParts(key, parts, f, o);
  }

  lemma KeyFromParts(key: string, parts: seq<string>, f: Fields, o: RecordObject)
    requires HasPrefix(key, RECORDS) && parts == Split(key[|RECORDS|..]) && |parts| == 7
    requires f == Fields(parts[2], parts[3], parts[4], parts[5]) && f == Printed(FromHour(o.hour))
    requires o.profile == parts[0] && o.tenant == parts[1] && o.ulid == parts[6]
    ensures key == RecordKey(o.profile, o.tenant, o.hour, o.ulid)
  {
    hide Pad, FromHour, Split;
    RecordKeyParts(o, f);
    var printed := RecordKey(o.profile, o.tenant, o.hour, o.ulid);
    assert parts == [o.profile, o.tenant, f.y, f.mo, f.d, f.h, o.ulid];
    SplitInjective(key[|RECORDS|..], printed[|RECORDS|..]);
    assert key == RECORDS + key[|RECORDS|..];
  }

  lemma RecordKeyPrinted(o: RecordObject)
    requires WellFormedRecord(o)
    ensures ParseRecordKey(RecordKey(o.profile, o.tenant, o.hour, o.ulid)) == Some(o)
  {
    hide FromHour, Pad, Base32, Split, ParseHour;
    var f := Printed(FromHour(o.hour));
    ULIDHasNoSlash(o.ulid);
    RecordKeyParts(o, f);
    ParseHourExact(f, o.hour);
  }

  /** A record key reads as an object exactly when it is the key written for
      that object and the object is one that can be: both directions at once. */
  lemma RecordKeyExact(key: string, o: RecordObject)
    ensures ParseRecordKey(key) == Some(o)
       <==> WellFormedRecord(o) && key == RecordKey(o.profile, o.tenant, o.hour, o.ulid)
  {
    if ParseRecordKey(key) == Some(o) { RecordKeyParsed(key, o); }
    if WellFormedRecord(o) { RecordKeyPrinted(o); }
  }

  lemma RecordKeysApart(profile: string, tenant: string, a: int, b: int, x: string, y: string)
    requires FourDigitYear(a) && FourDigitYear(b) && a < b
    ensures Less(RecordKey(profile, tenant, a, x), RecordKey(profile, tenant, b, y))
  {
    var prefix := TenantPrefix(profile, tenant);
    HourPathOrder(prefix, a, b, "/" + x, "/" + y);
    Regroup(prefix + HourPath(a), "/", x);
    Regroup(prefix + HourPath(b), "/", y);
  }

  lemma Regroup(p: string, s: string, x: string)
    ensures p + s + x == p + (s + x)
  {
  }

  /** The keys of one tenant sort by hour, and within an hour by ULID. */
  lemma RecordKeyOrder(a: RecordObject, b: RecordObject)
    requires WellFormedRecord(a) && WellFormedRecord(b)
    requires a.profile == b.profile && a.tenant == b.tenant
    ensures Less(RecordKey(a.profile, a.tenant, a.hour, a.ulid), RecordKey(b.profile, b.tenant, b.hour, b.ulid))
       <==> a.hour < b.hour || (a.hour == b.hour && Less(a.ulid, b.ulid))
  {
    if a.hour < b.hour {
      RecordKeysApart(a.profile, a.tenant, a.hour, b.hour, a.ulid, b.ulid);
    } else if b.hour < a.hour {
      RecordKeysApart(a.profile, a.tenant, b.hour, a.hour, b.ulid, a.ulid);
      Asymmetric(RecordKey(b.profile, b.tenant, b.hour, b.ulid), RecordKey(a.profile, a.tenant, a.hour, a.ulid));
    } else {
      CommonPrefix(HourPrefix(a.profile, a.tenant, a.hour), a.ulid, b.ulid);
    }
  }

  // ----- seal keys

  datatype SealObject = SealObject(profile: string, tenant: string, hour: int)

  function SealTenantPrefix(profile: string, tenant: string): string
  {
    SEALS + profile + "/" + tenant + "/"
  }

  function SealKey(profile: string, tenant: string, hour: int): string
  {
    SealTenantPrefix(profile, tenant) + HourPath(hour) + SEAL_EXT
  }

  predicate HasSealExt(s: string)
  {
    |s| >= 4 && s[|s| - 4..] == SEAL_EXT
  }

  function ParseSealKey(key: string): Option<SealObject>
  {
    if !HasPrefix(key, SEALS) then None else
    var parts := Split(key[|SEALS|..]);
    if |parts| != 6 || parts[0] == "" || parts[1] == "" || !HasSealExt(parts[5]) then None else
    var f := Fields(parts[2], parts[3], parts[4], parts[5][..|parts[5]| - 4]);
    if !Digital(f) then None else
    var c := Read(f);
    var o := SealObject(parts[0], parts[1], Date(c.year, c.month, c.day, c.hour));
    if SealKey(o.profile, o.tenant, o.hour) == key then Some(o) else None
  }

  predicate WellFormedSeal(o: SealObject)
  {
    Component(o.profile) && Component(o.tenant) && FourDigitYear(o.hour)
  }

  lemma SealRegroup(r: string, p: string, t: string, f: Fields, e: string)
    ensures var key := r + p + "/" + t + "/" + Path(f) + e;
            HasPrefix(key, r) && key == r + key[|r|..]
            && key[|r|..] == p + "/" + (t + "/" + Path(f.(h := f.h + e)))
  {
  }

  lemma SealParts(p: string, t: string, f: Fields)
    requires NoSlash(p) && NoSlash(t) && Slashless(f)
    ensures Split(p + "/" + (t + "/" + Path(f))) == [p, t, f.y, f.mo, f.d, f.h]
  {
    PathParts(f);
    SplitCons(t, Path(f));
    SplitCons(p, t + "/" + Path(f));
  }

  lemma SealKeyParts(o: SealObject, f: Fields)
    requires NoSlash(o.profile) && NoSlash(o.tenant) && f == Printed(FromHour(o.hour))
    ensures var key := SealKey(o.profile, o.tenant, o.hour);
            HasPrefix(key, SEALS) && key == SEALS + key[|SEALS|..] &&
            Split(key[|SEALS|..]) == [o.profile, o.tenant, f.y, f.mo, f.d, f.h + SEAL_EXT]
  {
    PrintedIsSlashless(FromHour(o.hour));
    assert '/' !in SEAL_EXT;
    SealRegroup(SEALS, o.profile, o.tenant, f, SEAL_EXT);
    SealParts(o.profile, o.tenant, f.(h := f.h + SEAL_EXT));
  }

  lemma SealKeyParsed(key: string, o: SealObject)
    requires ParseSealKey(key) == Some(o)
    ensures WellFormedSeal(o) && key == SealKey(o.profile, o.tenant, o.hour)
  {
    var parts := Split(key[|SEALS|..]);
    var f := Fields(parts[2], parts[3], parts[4], parts[5][..|parts[5]| - 4]);
    var g := Printed(FromHour(o.hour));
    SealKeyParts(o, g);
    assert parts == [o.profile, o.tenant, g.y, g.mo, g.d, g.h + SEAL_EXT];
    assert f.y == g.y;
    PrintedYear(FromHour(o.hour), f);
  }

  lemma PrintedYear(c: Civil, f: Fields)
    requires Digital(f) && f.y == Printed(c).y
    ensures 0 <= c.year <= 9999
  {
    SignIsNoDigit(c.year, 4);
    ValueBound(f.y);
    Widths();
  }

  lemma SealKeyPrinted(o: SealObject)
    requires WellFormedSeal(o)
    ensures ParseSealKey(SealKey(o.profile, o.tenant, o.hour)) == Some(o)
  {
    var key := SealKey(o.profile, o.tenant, o.hour);
    var f := Printed(FromHour(o.hour));
    SealKeyParts(o, f);
    PrintedThenRead(FromHour(o.hour));
    var last := f.h + SEAL_EXT;
    assert last[|last| - 4..] == SEAL_EXT && last[..|last| - 4] == f.h;
  }

  /** A seal key reads as an object exactly when it is the key written for it. */
  lemma SealKeyExact(key: string, o: SealObject)
    ensures ParseSealKey(key) == Some(o)
       <==> WellFormedSeal(o) && key == SealKey(o.profile, o.tenant, o.hour)
  {
    if ParseSealKey(key) == Some(o) { SealKeyParsed(key, o); }
    if WellFormedSeal(o) { SealKeyPrinted(o); }
  }

  /** The seals of one tenant sort by hour. */
  lemma SealKeyOrder(profile: string, tenant: string, a: int, b: int)
    requires FourDigitYear(a) && FourDigitYear(b)
    ensures Less(SealKey(profile, tenant, a), SealKey(profile, tenant, b)) <==> a < b
  {
    Irreflexive(SealKey(profile, tenant, a));
    if a < b {
      HourPathOrder(SealTenantPrefix(profile, tenant), a, b, SEAL_EXT, SEAL_EXT);
    } else if b < a {
      HourPathOrder(SealTenantPrefix(profile, tenant), b, a, SEAL_EXT, SEAL_EXT);
      Asymmetric(SealKey(profile, tenant, b), SealKey(profile, tenant, a));
    }
  }
}
