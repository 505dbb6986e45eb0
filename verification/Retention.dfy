/** How long a profile keeps its copies: `longerRetention` and `RetainUntil` of
    preset/profile.go. Moments are in nanoseconds. */
module Retention {
  import opened Options
  import opened Calendar

  datatype Retention = Retention(
    policy: string, days: int, yearsAfterExpiry: int, fallbackDays: int, hotDays: int, minimumDays: int,
    configurable: bool, publishedInTerms: bool, deleteAtEnd: bool, note: string)

  const AFTER_EXPIRY := "after_expiry"
  const UNSET := Retention("", 0, 0, 0, 0, 0, false, false, false, "")
  const HOUR := 3_600_000_000_000
  const DAY := 24 * HOUR

  function Max(a: int, b: int): int
  {
    if a < b then b else a
  }

  function Longer(a: Retention, b: Retention): Retention
  {
    if a.policy == "" then b
    else Retention(
      if b.policy == AFTER_EXPIRY then b.policy else a.policy,
      Max(a.days, b.days),
      if b.policy != AFTER_EXPIRY then a.yearsAfterExpiry
      else if a.policy != AFTER_EXPIRY then b.yearsAfterExpiry else Max(a.yearsAfterExpiry, b.yearsAfterExpiry),
      if b.policy != AFTER_EXPIRY then a.fallbackDays
      else if a.policy != AFTER_EXPIRY then Max(b.fallbackDays, a.days) else Max(a.fallbackDays, b.fallbackDays),
      Max(a.hotDays, b.hotDays),
      Max(a.minimumDays, b.minimumDays),
      a.configurable && b.configurable,
      a.publishedInTerms || b.publishedInTerms,
      a.deleteAtEnd || b.deleteAtEnd,
      if a.note == "" then b.note else a.note)
  }

  /** The retention of a profile, preset by preset. */
  function Composed(rs: seq<Retention>): Retention
  {
    if rs == [] then UNSET else Longer(Composed(rs[..|rs| - 1]), rs[|rs| - 1])
  }

  /** A moment years on, with a day that does not exist carried into the next. */
  function AddYears(t: int, years: int): int
  {
    var c := FromHour(t / HOUR);
    Date(c.year + years, c.month, c.day, c.hour) * HOUR + t % HOUR
  }

  function AddDays(t: int, days: int): int
  {
    t + days * DAY
  }

  function RetainUntil(r: Retention, written: int, expiry: Option<int>): int
  {
    if r.policy == AFTER_EXPIRY then
      if expiry.Some? then AddYears(expiry.value, r.yearsAfterExpiry) else AddDays(written, r.fallbackDays)
    else AddDays(written, Max(r.days, r.minimumDays))
  }

  // ----- later years are later

  lemma YearsOn(y: int, z: int, month: int)
    requires y <= z && 1 <= month <= 12
    ensures DaysBeforeYear(y) + DaysBeforeMonth(y, month) <= DaysBeforeYear(z) + DaysBeforeMonth(z, month)
  {
    if y < z {
      YearsApart(y, z);
    }
  }

  lemma DatesOn(c: Civil, y: int, z: int)
    requires y <= z && 1 <= c.month <= 12
    ensures Date(c.year + y, c.month, c.day, c.hour) <= Date(c.year + z, c.month, c.day, c.hour)
  {
    hide DaysBeforeYear, DaysBeforeMonth;
    assert (c.month - 1) / 12 == 0 && (c.month - 1) % 12 == c.month - 1;
    YearsOn(c.year + y, c.year + z, c.month);
  }

  lemma MoreYearsAreLater(t: int, y: int, z: int)
    requires y <= z
    ensures AddYears(t, y) <= AddYears(t, z)
  {
    hide Date, FromHour;
    DatesOn(FromHour(t / HOUR), y, z);
  }

  lemma MoreDaysAreLater(t: int, m: int, n: int)
    ensures m <= n <==> AddDays(t, m) <= AddDays(t, n)
  {
  }

  // ----- what composing leaves

  ghost predicate Stated(rs: seq<Retention>)
  {
    rs != [] && forall i :: 0 <= i < |rs| ==> rs[i].policy != ""
  }

  predicate AfterExpiry(r: Retention)
  {
    r.policy == AFTER_EXPIRY
  }

  lemma ComposedStep(front: seq<Retention>, last: Retention)
    ensures Composed(front + [last]) == Longer(Composed(front), last)
    ensures front == [] ==> Composed(front + [last]) == last
  {
    assert (front + [last])[..|front + [last]| - 1] == front;
  }

  /** The greatest of some presets' figures. */
  ghost predicate Most(rs: seq<Retention>, get: Retention -> int, v: int)
  {
    && (forall i :: 0 <= i < |rs| ==> get(rs[i]) <= v)
    && exists i :: 0 <= i < |rs| && get(rs[i]) == v
  }

  lemma OneMoreFigure(front: seq<Retention>, last: Retention, get: Retention -> int, v: int)
    ensures Most(front, get, v) ==> Most(front + [last], get, Max(v, get(last)))
    ensures Most([last], get, get(last))
  {
    assert [last][0] == last;
    if Most(front, get, v) {
      var rs := front + [last];
      assert rs[|front|] == last;
      var i :| 0 <= i < |front| && get(front[i]) == v;
      assert rs[i] == front[i];
    }
  }

  const DAYS := (r: Retention) => r.days
  const MINIMUM := (r: Retention) => r.minimumDays
  const YEARS := (r: Retention) => r.yearsAfterExpiry
  const FALLBACK := (r: Retention) => r.fallbackDays

  ghost predicate SomeAfterExpiry(rs: seq<Retention>)
  {
    exists i :: 0 <= i < |rs| && AfterExpiry(rs[i])
  }

  lemma OneMorePolicy(front: seq<Retention>, last: Retention)
    ensures SomeAfterExpiry(front + [last]) <==> SomeAfterExpiry(front) || AfterExpiry(last)
  {
    var rs := front + [last];
    assert rs[|front|] == last;
    if i :| 0 <= i < |front| && AfterExpiry(front[i]) { assert AfterExpiry(rs[i]); }
  }

  lemma {:induction false} Figures(rs: seq<Retention>)
    requires Stated(rs)
    ensures Composed(rs).policy != "" && (AfterExpiry(Composed(rs)) <==> SomeAfterExpiry(rs))
    ensures Most(rs, DAYS, Composed(rs).days) && Most(rs, MINIMUM, Composed(rs).minimumDays)
  {
    var n := |rs| - 1;
    var front, last := rs[..n], rs[n];
    assert rs == front + [last];
    ComposedStep(front, last);
    OneMoreFigure(front, last, DAYS, Composed(front).days);
    OneMoreFigure(front, last, MINIMUM, Composed(front).minimumDays);
    OneMorePolicy(front, last);
    if n == 0 {
      assert rs == [last] && front == [];
    } else {
      Figures(front);
      hide Most, Composed, SomeAfterExpiry;
    }
  }

  const HOT := (r: Retention) => r.hotDays

  ghost predicate AnyHas(rs: seq<Retention>, get: Retention -> bool)
  {
    exists i :: 0 <= i < |rs| && get(rs[i])
  }

  const DELETED := (r: Retention) => r.deleteAtEnd
  const PUBLISHED := (r: Retention) => r.publishedInTerms
  const SET := (r: Retention) => !r.configurable

  lemma OneMoreFlag(front: seq<Retention>, last: Retention, get: Retention -> bool)
    ensures AnyHas(front + [last], get) <==> AnyHas(front, get) || get(last)
  {
    var rs := front + [last];
    assert rs[|front|] == last;
    if i :| 0 <= i < |front| && get(front[i]) { assert get(rs[i]); }
  }

  /** In any order: quick to search for as long as the longest asks, deleted at
      the end or published if any says so, and configurable if all are. */
  lemma {:induction false} OtherTerms(rs: seq<Retention>)
    requires Stated(rs)
    ensures Most(rs, HOT, Composed(rs).hotDays)
    ensures Composed(rs).deleteAtEnd <==> AnyHas(rs, DELETED)
    ensures Composed(rs).publishedInTerms <==> AnyHas(rs, PUBLISHED)
    ensures Composed(rs).configurable <==> !AnyHas(rs, SET)
  {
    hide Most, Composed, AnyHas;
    var n := |rs| - 1;
    var front, last := rs[..n], rs[n];
    assert rs == front + [last];
    ComposedStep(front, last);
    OneMoreFigure(front, last, HOT, Composed(front).hotDays);
    OneMoreFlag(front, last, DELETED);
    OneMoreFlag(front, last, PUBLISHED);
    OneMoreFlag(front, last, SET);
    if n == 0 {
      assert rs == [last] && front == [];
      NoFlags(front);
    } else {
      Figures(front);
      OtherTerms(front);
    }
  }

  lemma NoFlags(rs: seq<Retention>)
    requires rs == []
    ensures forall get :: !AnyHas(rs, get)
  {
  }

  /** Presets of a fixed number of days, in any order: the profile's copies are
      kept as long as the longest of them asks, and no longer. */
  lemma FixedKeepsTheLongest(rs: seq<Retention>, written: int, expiry: Option<int>)
    requires Stated(rs) && forall i :: 0 <= i < |rs| ==> !AfterExpiry(rs[i])
    ensures forall i :: 0 <= i < |rs| ==>
            RetainUntil(rs[i], written, expiry) <= RetainUntil(Composed(rs), written, expiry)
    ensures exists i ::
            0 <= i < |rs| && RetainUntil(rs[i], written, expiry) == RetainUntil(Composed(rs), written, expiry)
  {
    Figures(rs);
    hide Composed, Most;
    var c := Composed(rs);
    LongestFixed(rs, c.days, c.minimumDays);
    forall i | 0 <= i < |rs|
      ensures RetainUntil(rs[i], written, expiry) <= RetainUntil(c, written, expiry)
      ensures Fixed(rs[i]) == Fixed(c) ==> RetainUntil(rs[i], written, expiry) == RetainUntil(c, written, expiry)
    {
      FixedEnds(rs[i], c, written, expiry);
    }
    hide RetainUntil, Fixed;
    var k :| 0 <= k < |rs| && Fixed(rs[k]) == Fixed(c);
  }

  function Fixed(r: Retention): int
  {
    Max(r.days, r.minimumDays)
  }

  lemma LongestFixed(rs: seq<Retention>, days: int, minimum: int)
    requires Most(rs, DAYS, days) && Most(rs, MINIMUM, minimum)
    ensures forall i :: 0 <= i < |rs| ==> Fixed(rs[i]) <= Max(days, minimum)
    ensures exists i :: 0 <= i < |rs| && Fixed(rs[i]) == Max(days, minimum)
  {
    var i :| 0 <= i < |rs| && DAYS(rs[i]) == days;
    var j :| 0 <= j < |rs| && MINIMUM(rs[j]) == minimum;
    var k := if days < minimum then j else i;
    forall i | 0 <= i < |rs| ensures Fixed(rs[i]) <= Max(days, minimum) {
      assert DAYS(rs[i]) <= days && MINIMUM(rs[i]) <= minimum;
    }
    assert DAYS(rs[k]) <= days && MINIMUM(rs[k]) <= minimum;
    assert Fixed(rs[k]) == Max(days, minimum);
  }

  lemma FixedEnds(r: Retention, c: Retention, written: int, expiry: Option<int>)
    requires !AfterExpiry(r) && !AfterExpiry(c)
    ensures RetainUntil(r, written, expiry) <= RetainUntil(c, written, expiry) <==> Fixed(r) <= Fixed(c)
    ensures RetainUntil(r, written, expiry) == RetainUntil(c, written, expiry) <==> Fixed(r) == Fixed(c)
  {
    MoreDaysAreLater(written, Fixed(r), Fixed(c));
    MoreDaysAreLater(written, Fixed(c), Fixed(r));
  }

  lemma {:induction false} Years(rs: seq<Retention>)
    requires rs != [] && forall i :: 0 <= i < |rs| ==> AfterExpiry(rs[i])
    ensures AfterExpiry(Composed(rs))
    ensures Most(rs, YEARS, Composed(rs).yearsAfterExpiry) && Most(rs, FALLBACK, Composed(rs).fallbackDays)
  {
    var n := |rs| - 1;
    var front, last := rs[..n], rs[n];
    assert rs == front + [last];
    ComposedStep(front, last);
    OneMoreFigure(front, last, YEARS, Composed(front).yearsAfterExpiry);
    OneMoreFigure(front, last, FALLBACK, Composed(front).fallbackDays);
    if n == 0 {
      assert rs == [last] && front == [];
    } else {
      Years(front);
      hide Most, Composed;
    }
  }

  /** Presets that count from an expiry, in any order, known or not: likewise. */
  lemma AfterExpiryKeepsTheLongest(rs: seq<Retention>, written: int, expiry: Option<int>)
    requires rs != [] && forall i :: 0 <= i < |rs| ==> AfterExpiry(rs[i])
    ensures forall i :: 0 <= i < |rs| ==>
            RetainUntil(rs[i], written, expiry) <= RetainUntil(Composed(rs), written, expiry)
    ensures exists i ::
            0 <= i < |rs| && RetainUntil(rs[i], written, expiry) == RetainUntil(Composed(rs), written, expiry)
  {
    Years(rs);
    hide Composed, AddDays, AddYears;
    var c := Composed(rs);
    forall i | 0 <= i < |rs| ensures RetainUntil(rs[i], written, expiry) <= RetainUntil(c, written, expiry) {
      assert YEARS(rs[i]) <= c.yearsAfterExpiry && FALLBACK(rs[i]) <= c.fallbackDays;
      MoreDaysAreLater(written, rs[i].fallbackDays, c.fallbackDays);
      if expiry.Some? { MoreYearsAreLater(expiry.value, rs[i].yearsAfterExpiry, c.yearsAfterExpiry); }
    }
    var i :| 0 <= i < |rs| && YEARS(rs[i]) == c.yearsAfterExpiry;
    var j :| 0 <= j < |rs| && FALLBACK(rs[j]) == c.fallbackDays;
    var k := if expiry.Some? then i else j;
    assert RetainUntil(rs[k], written, expiry) == RetainUntil(c, written, expiry);
  }

  // ----- both kinds

  /** A preset whose days go into the date for an unknown expiry: one that counts
      from an expiry, or one listed before all of those. */
  ghost predicate Counted(rs: seq<Retention>, i: int)
  {
    0 <= i < |rs| && (AfterExpiry(rs[i]) || forall j :: 0 <= j < i ==> !AfterExpiry(rs[j]))
  }

  /** What it gives: its fallback, or its days while no expiry is counted from. */
  function Given(r: Retention): int
  {
    if AfterExpiry(r) then r.fallbackDays else r.days
  }

  /** The number of days a preset asks for when the expiry is not known. */
  function Demanded(r: Retention): int
  {
    if AfterExpiry(r) then r.fallbackDays else Max(r.days, r.minimumDays)
  }

  lemma FallbackStep(a: Retention, b: Retention)
    requires a.policy != ""
    ensures Given(Longer(a, b)) == if AfterExpiry(b) || !AfterExpiry(a) then Max(Given(a), Given(b)) else Given(a)
  {
  }

  lemma CountedFront(rs: seq<Retention>, r: Retention, i: int)
    ensures i < |rs| ==> (Counted(rs + [r], i) <==> Counted(rs, i))
    ensures Counted(rs + [r], |rs|) <==> AfterExpiry(r) || forall j :: 0 <= j < |rs| ==> !AfterExpiry(rs[j])
  {
    assert forall j :: 0 <= j < |rs| ==> (rs + [r])[j] == rs[j];
  }

  ghost predicate IsGreatestGiven(rs: seq<Retention>, days: int)
  {
    && (forall i :: Counted(rs, i) ==> Given(rs[i]) <= days)
    && exists i :: Counted(rs, i) && Given(rs[i]) == days
  }

  lemma OneMoreGiven(front: seq<Retention>, last: Retention, days: int)
    requires IsGreatestGiven(front, days)
    ensures IsGreatestGiven(front + [last],
              if AfterExpiry(last) || (forall j :: 0 <= j < |front| ==> !AfterExpiry(front[j]))
              then Max(days, Given(last)) else days)
  {
    hide Given;
    var rs, n := front + [last], |front|;
    forall i ensures i < n ==> (Counted(rs, i) <==> Counted(front, i)) { CountedFront(front, last, i); }
    CountedFront(front, last, n);
    var i :| Counted(front, i) && Given(front[i]) == days;
    assert rs[i] == front[i] && Counted(rs, i) && rs[n] == last;
    hide Counted;
    forall k | Counted(rs, k) ensures k < n ==> Given(rs[k]) <= days {
      CountedIndex(rs, k);
      assert k < n ==> Counted(front, k) && front[k] == rs[k];
    }
    forall k | Counted(rs, k) ensures k <= n { CountedIndex(rs, k); }
  }

  lemma {:induction false} FallbackIsGreatest(rs: seq<Retention>)
    requires Stated(rs)
    ensures IsGreatestGiven(rs, Given(Composed(rs)))
  {
    var n := |rs| - 1;
    var front, last := rs[..n], rs[n];
    assert rs == front + [last];
    ComposedStep(front, last);
    if n == 0 {
      assert Counted(rs, 0);
    } else {
      hide Counted, Given, Longer, Composed, IsGreatestGiven;
      Figures(front);
      FallbackIsGreatest(front);
      FallbackStep(Composed(front), last);
      OneMoreGiven(front, last, Given(Composed(front)));
    }
  }

  lemma CountedIndex(rs: seq<Retention>, i: int)
    requires Counted(rs, i)
    ensures 0 <= i < |rs|
  {
  }

  /** With presets of both kinds and an expiry that is not known, the profile
      never ends sooner than any of them exactly when each fixed preset asks for
      no more days than some preset that counts towards the fallback gives. */
  lemma MixedKeepsTheLongest(rs: seq<Retention>, written: int)
    requires Stated(rs) && SomeAfterExpiry(rs)
    ensures (forall i :: 0 <= i < |rs| ==>
               RetainUntil(rs[i], written, None) <= RetainUntil(Composed(rs), written, None))
            <==> (forall i :: 0 <= i < |rs| && !AfterExpiry(rs[i]) ==>
                    exists j :: Counted(rs, j) && Demanded(rs[i]) <= Given(rs[j]))
  {
    Figures(rs);
    FallbackIsGreatest(rs);
    hide Composed, Counted, Most, SomeAfterExpiry;
    var c := Composed(rs);
    assert Given(c) == c.fallbackDays;
    forall i | 0 <= i < |rs|
      ensures RetainUntil(rs[i], written, None) <= RetainUntil(c, written, None) <==> Demanded(rs[i]) <= c.fallbackDays
      ensures AfterExpiry(rs[i]) ==> Demanded(rs[i]) <= c.fallbackDays
    {
      EndsBy(rs[i], c, written);
      IsCounted(rs, i);
    }
    hide RetainUntil, Given, Demanded, AfterExpiry;
    var k :| Counted(rs, k) && Given(rs[k]) == c.fallbackDays;
  }

  lemma EndsBy(r: Retention, c: Retention, written: int)
    requires AfterExpiry(c)
    ensures RetainUntil(r, written, None) <= RetainUntil(c, written, None) <==> Demanded(r) <= c.fallbackDays
  {
    MoreDaysAreLater(written, Demanded(r), c.fallbackDays);
  }

  lemma IsCounted(rs: seq<Retention>, i: nat)
    requires i < |rs|
    ensures AfterExpiry(rs[i]) ==> Counted(rs, i) && Demanded(rs[i]) == Given(rs[i])
  {
  }

  /** So it never does where the fixed presets come first and none has a minimum
      above its days. */
  lemma FixedFirstKeepsTheLongest(rs: seq<Retention>, n: nat, written: int)
    requires Stated(rs) && n < |rs|
    requires forall i :: 0 <= i < |rs| ==> (AfterExpiry(rs[i]) <==> n <= i)
    requires forall i :: 0 <= i < n ==> rs[i].minimumDays <= rs[i].days
    ensures forall i :: 0 <= i < |rs| ==> RetainUntil(rs[i], written, None) <= RetainUntil(Composed(rs), written, None)
  {
    hide Composed, RetainUntil;
    assert AfterExpiry(rs[n]);
    MixedKeepsTheLongest(rs, written);
    forall i | 0 <= i < |rs| && !AfterExpiry(rs[i])
      ensures exists j :: Counted(rs, j) && Demanded(rs[i]) <= Given(rs[j])
    {
      assert Counted(rs, i) && Demanded(rs[i]) <= Given(rs[i]);
    }
  }

  // ----- both kinds, and an expiry that is known

  /** The most years among the presets that count from an expiry. */
  ghost predicate MostYears(rs: seq<Retention>, v: int)
  {
    && (forall i :: 0 <= i < |rs| && AfterExpiry(rs[i]) ==> rs[i].yearsAfterExpiry <= v)
    && exists i :: 0 <= i < |rs| && AfterExpiry(rs[i]) && rs[i].yearsAfterExpiry == v
  }

  lemma OneMoreOfYears(front: seq<Retention>, last: Retention, v: int)
    ensures !AfterExpiry(last) && MostYears(front, v) ==> MostYears(front + [last], v)
    ensures AfterExpiry(last) && MostYears(front, v) ==> MostYears(front + [last], Max(v, last.yearsAfterExpiry))
    ensures AfterExpiry(last) && !SomeAfterExpiry(front) ==> MostYears(front + [last], last.yearsAfterExpiry)
  {
    var rs := front + [last];
    assert rs[|front|] == last;
    if MostYears(front, v) {
      var i :| 0 <= i < |front| && AfterExpiry(front[i]) && front[i].yearsAfterExpiry == v;
      assert rs[i] == front[i];
    }
  }

  /** Fixed presets among them do not change the years, wherever they stand. */
  lemma {:induction false} YearsAreGreatest(rs: seq<Retention>)
    requires Stated(rs) && SomeAfterExpiry(rs)
    ensures MostYears(rs, Composed(rs).yearsAfterExpiry)
  {
    var n := |rs| - 1;
    var front, last := rs[..n], rs[n];
    assert rs == front + [last];
    ComposedStep(front, last);
    OneMorePolicy(front, last);
    OneMoreOfYears(front, last, Composed(front).yearsAfterExpiry);
    if n > 0 {
      Figures(front);
      if SomeAfterExpiry(front) { YearsAreGreatest(front); }
      hide MostYears, SomeAfterExpiry, Composed, Most;
    } else {
      assert front == [] && !SomeAfterExpiry(front);
    }
  }

  /** With presets of both kinds and an expiry that is known, the profile follows
      the expiry alone: it never ends sooner than any of them exactly when each
      fixed preset has ended by the years after the expiry that one of the
      others asks. */
  lemma MixedWithAnExpiry(rs: seq<Retention>, written: int, expiry: int)
    requires Stated(rs) && SomeAfterExpiry(rs)
    ensures (forall i :: 0 <= i < |rs| ==>
               RetainUntil(rs[i], written, Some(expiry)) <= RetainUntil(Composed(rs), written, Some(expiry)))
       <==> (forall i :: 0 <= i < |rs| && !AfterExpiry(rs[i]) ==>
               exists j :: 0 <= j < |rs| && AfterExpiry(rs[j]) &&
                           AddDays(written, Fixed(rs[i])) <= AddYears(expiry, rs[j].yearsAfterExpiry))
  {
    var k := LatestYears(rs, written, expiry);
    hide Composed, AddDays, AddYears, SomeAfterExpiry, Fixed, Stated;
    forall i | 0 <= i < |rs| ensures RetainUntil(rs[i], written, Some(expiry)) ==
      if AfterExpiry(rs[i]) then AddYears(expiry, rs[i].yearsAfterExpiry) else AddDays(written, Fixed(rs[i]))
    {
      FixedIs(rs[i], written, expiry);
    }
    hide RetainUntil;
  }

  lemma LatestYears(rs: seq<Retention>, written: int, expiry: int) returns (k: nat)
    requires Stated(rs) && SomeAfterExpiry(rs)
    ensures k < |rs| && AfterExpiry(rs[k])
    ensures RetainUntil(Composed(rs), written, Some(expiry)) == AddYears(expiry, rs[k].yearsAfterExpiry)
    ensures forall j :: 0 <= j < |rs| && AfterExpiry(rs[j]) ==>
              AddYears(expiry, rs[j].yearsAfterExpiry) <= AddYears(expiry, rs[k].yearsAfterExpiry)
  {
    Figures(rs);
    YearsAreGreatest(rs);
    hide Composed, AddDays, AddYears, Most, SomeAfterExpiry;
    var c := Composed(rs);
    k :| 0 <= k < |rs| && AfterExpiry(rs[k]) && rs[k].yearsAfterExpiry == c.yearsAfterExpiry;
    forall j | 0 <= j < |rs| && AfterExpiry(rs[j])
      ensures AddYears(expiry, rs[j].yearsAfterExpiry) <= AddYears(expiry, c.yearsAfterExpiry)
    {
      MoreYearsAreLater(expiry, rs[j].yearsAfterExpiry, c.yearsAfterExpiry);
    }
  }

  lemma FixedIs(r: Retention, written: int, expiry: int)
    ensures !AfterExpiry(r) ==> RetainUntil(r, written, Some(expiry)) == AddDays(written, Fixed(r))
  {
  }

  lemma {:induction false} MonthsVary(y: int, z: int, m: int)
    requires 1 <= m <= 12
    ensures DaysBeforeMonth(y, m) <= DaysBeforeMonth(z, m) + (if m > 2 then 1 else 0)
  {
    if m > 1 { MonthsVary(y, z, m - 1); }
  }

  lemma DateOn(c: Civil)
    requires 1 <= c.month <= 12
    ensures Date(c.year + 1, c.month, c.day, c.hour) <= Date(c.year, c.month, c.day, c.hour) + 24 * 367
  {
    YearStep(c.year);
    MonthsVary(c.year + 1, c.year, c.month);
    DateIs(c.year, c);
    DateIs(c.year + 1, c);
    hide Date, DaysBeforeYear, DaysBeforeMonth;
  }

  lemma DateIs(y: int, c: Civil)
    requires 1 <= c.month <= 12
    ensures Date(y, c.month, c.day, c.hour)
         == 24 * (DaysBeforeYear(y) + DaysBeforeMonth(y, c.month) + c.day - 1) + c.hour
  {
    hide DaysBeforeYear, DaysBeforeMonth;
    assert (c.month - 1) / 12 == 0 && (c.month - 1) % 12 == c.month - 1;
  }

  lemma AYearOn(t: int)
    ensures AddYears(t, 1) <= AddDays(t, 367)
  {
    hide Date, FromHour;
    DateOn(FromHour(t / HOUR));
  }

  /** Ten years fixed and one year after an expiry that falls when the record is
      written: whichever comes first, a copy is kept for the year alone. */
  lemma ExpiryEndsItSooner(written: int)
    ensures var fixed := UNSET.(policy := "fixed", days := 3650);
            var after := UNSET.(policy := AFTER_EXPIRY, yearsAfterExpiry := 1, fallbackDays := 365);
            var end := RetainUntil(fixed, written, Some(written));
            && RetainUntil(Composed([fixed, after]), written, Some(written)) == AddYears(written, 1) < end
            && RetainUntil(Composed([after, fixed]), written, Some(written)) == AddYears(written, 1) < end
  {
    var fixed := UNSET.(policy := "fixed", days := 3650);
    var after := UNSET.(policy := AFTER_EXPIRY, yearsAfterExpiry := 1, fallbackDays := 365);
    assert [fixed, after] == [fixed] + [after] && [after, fixed] == [after] + [fixed];
    assert [fixed] == [] + [fixed] && [after] == [] + [after];
    ComposedStep([], fixed);
    ComposedStep([], after);
    ComposedStep([fixed], after);
    ComposedStep([after], fixed);
    AYearOn(written);
    hide AddYears, Composed;
  }

  /** Ten years fixed and one year from an unknown expiry: listed that way round
      a copy is kept ten years, the other way round one. */
  lemma OrderMatters(written: int)
    ensures var fixed := UNSET.(policy := "fixed", days := 3650);
            var after := UNSET.(policy := AFTER_EXPIRY, yearsAfterExpiry := 5, fallbackDays := 365);
            && RetainUntil(Composed([fixed, after]), written, None) == AddDays(written, 3650)
            && RetainUntil(Composed([after, fixed]), written, None) ==
               AddDays(written, 365) < RetainUntil(fixed, written, None)
  {
    var fixed := UNSET.(policy := "fixed", days := 3650);
    var after := UNSET.(policy := AFTER_EXPIRY, yearsAfterExpiry := 5, fallbackDays := 365);
    assert [fixed, after][..1] == [fixed] && [after, fixed][..1] == [after];
    assert [fixed][..0] == [] && [after][..0] == [];
    assert Composed([fixed]) == fixed && Composed([after]) == after;
  }

  // ----- how long that is

  /** So many years on is the same day and time of that year, or the first of March
      where the day is a 29th of February that the year does not have. */
  lemma YearsKeepTheDay(t: int, years: int)
    ensures var was, now := FromHour(t / HOUR), FromHour(AddYears(t, years) / HOUR);
            && AddYears(t, years) % HOUR == t % HOUR && now.year == was.year + years && now.hour == was.hour
            && if was.month == 2 && was.day == 29 && !Leap(now.year) then now.month == 3 && now.day == 1
               else now.month == was.month && now.day == was.day
  {
    hide Date, FromHour, Exists, Leap;
    SameDay(FromHour(t / HOUR), years);
  }

  lemma SameDay(was: Civil, years: int)
    requires Exists(was)
    ensures var now := FromHour(Date(was.year + years, was.month, was.day, was.hour));
            && now.year == was.year + years && now.hour == was.hour
            && if was.month == 2 && was.day == 29 && !Leap(now.year) then now.month == 3 && now.day == 1
               else now.month == was.month && now.day == was.day
  {
    hide Date, FromHour;
    var year := was.year + years;
    if was.month == 2 && was.day == 29 && !Leap(year) {
      NextMonth(year, was.hour);
      WriteBack(Civil(year, 3, 1, was.hour));
    } else {
      WriteBack(Civil(year, was.month, was.day, was.hour));
    }
  }

  lemma NextMonth(y: int, h: int)
    requires !Leap(y)
    ensures Date(y, 2, 29, h) == Date(y, 3, 1, h)
  {
    hide DaysBeforeYear;
    assert DaysBeforeMonth(y, 3) == DaysBeforeMonth(y, 2) + 28;
  }

  /** How long a copy is kept: by its days or the least there may be from when it was
      written, or by its years from an expiry that is known and its fallback's days
      where none is. */
  lemma KeptFor(r: Retention, written: int, expiry: Option<int>)
    ensures var until := RetainUntil(r, written, expiry);
            && (r.policy != "after_expiry" ==>
                  && until >= written + r.days * 86_400_000_000_000
                  && until >= written + r.minimumDays * 86_400_000_000_000
                  && until - written in {r.days * 86_400_000_000_000, r.minimumDays * 86_400_000_000_000})
            && (r.policy == "after_expiry" && expiry.None? ==> until - written == r.fallbackDays * 86_400_000_000_000)
            && (r.policy == "after_expiry" && expiry.Some? ==>
                  FromHour(until / HOUR).year - FromHour(expiry.value / HOUR).year == r.yearsAfterExpiry)
  {
    hide FromHour, AddYears;
    if expiry.Some? { YearsKeepTheDay(expiry.value, r.yearsAfterExpiry); }
  }
}
