/** Moments as sort keys: RFC 3339 with nanoseconds, trailing zeros dropped, as
    `time.RFC3339Nano` writes them. A moment is in nanoseconds from the start of
    year 0. */
module TimeText {
  import opened Lex
  import opened Text
  import opened Calendar
  import opened Layout

  const NANOS := 1_000_000_000

  /** The date and time to the second: a moment given in whole seconds. */
  function Clock(second: int): string
  {
    var c := FromHour(second / 3600);
    Dated(c, Timed(c.hour, second / 60 % 60, second % 60))
  }

  function Dated(c: Civil, rest: string): string
  {
    PadInt(c.year, 4) + "-" + (PadInt(c.month, 2) + "-" + (PadInt(c.day, 2) + "T" + rest))
  }

  function Timed(h: int, m: int, s: int): string
  {
    PadInt(h, 2) + ":" + (PadInt(m, 2) + ":" + PadInt(s, 2))
  }

  function Trim(s: string): (r: string)
    ensures r <= s
  {
    if s == "" then ""
    else
      var rest := Trim(s[1..]);
      assert s == [s[0]] + s[1..];
      if rest == "" && s[0] == '0' then "" else [s[0]] + rest
  }

  /** The digits of a fraction of a second, none for a whole one. */
  function Digits(t: int): string
  {
    Trim(Pad(t % NANOS, 9))
  }

  function Fraction(t: int): string
  {
    if Digits(t) == "" then "" else "." + Digits(t)
  }

  function Rfc3339Nano(t: int): string
  {
    Clock(t / NANOS) + (Fraction(t) + "Z")
  }

  ghost predicate InYears(t: int)
  {
    0 <= FromHour(t / NANOS / 3600).year <= 9999
  }

  // ----- seconds sort as they follow one another

  lemma SepOrder(a: nat, b: nat, w: nat, sep: string, x: string, y: string)
    requires a <= b < Pow10(w) && |sep| == 1
    requires a == b ==> Less(x, y)
    ensures Less(Pad(a, w) + sep + x, Pad(b, w) + sep + y)
  {
    Regroup(Pad(a, w), sep, x);
    Regroup(Pad(b, w), sep, y);
    if a == b {
      CommonPrefix(sep, x, y);
      CommonPrefix(Pad(a, w), sep + x, sep + y);
    } else {
      PadLength(a, w);
      PadLength(b, w);
      PadOrder(a, b, w);
      Irreflexive(Pad(a, w));
      Decided(Pad(a, w), Pad(b, w), sep + x, sep + y);
    }
  }

  lemma TimedOrder(h: nat, m: nat, s: nat, i: nat, n: nat, t: nat)
    requires h < 24 && m < 60 && s < 60 && i < 24 && n < 60 && t < 60
    requires h < i || (h == i && (m < n || (m == n && s < t)))
    ensures Less(Timed(h, m, s), Timed(i, n, t))
  {
    hide Pad, Less;
    Widths();
    if m == n && s < t { PadOrder(s, t, 2); }
    if m < n || (m == n && s < t) { SepOrder(m, n, 2, ":", Pad(s, 2), Pad(t, 2)); }
    SepOrder(h, i, 2, ":", Pad(m, 2) + ":" + Pad(s, 2), Pad(n, 2) + ":" + Pad(t, 2));
  }

  lemma DatedOrder(a: Civil, b: Civil, x: string, y: string)
    requires Exists(a) && Exists(b) && 0 <= a.year <= 9999 && 0 <= b.year <= 9999
    requires Earlier(a, b) || a == b
    requires a.year == b.year && a.month == b.month && a.day == b.day ==> Less(x, y)
    ensures Less(Dated(a, x), Dated(b, y))
  {
    hide Pad, Less;
    Widths();
    var sameYear, sameMonth := a.year == b.year, a.month == b.month;
    var dx, dy := Pad(a.day, 2) + "T" + x, Pad(b.day, 2) + "T" + y;
    if sameYear && sameMonth { SepOrder(a.day, b.day, 2, "T", x, y); }
    if sameYear { SepOrder(a.month, b.month, 2, "-", dx, dy); }
    SepOrder(a.year, b.year, 4, "-", Pad(a.month, 2) + "-" + dx, Pad(b.month, 2) + "-" + dy);
  }

  lemma ClockOrder(a: int, b: int)
    requires a < b
    requires 0 <= FromHour(a / 3600).year <= 9999 && 0 <= FromHour(b / 3600).year <= 9999
    ensures Less(Clock(a), Clock(b)) && |Clock(a)| == |Clock(b)| == 19
  {
    hide FromHour, Pad, Less;
    OrderOfHours(a / 3600, b / 3600);
    OrderOfHours(b / 3600, a / 3600);
    SecondsApart(a, b);
    var x, y := FromHour(a / 3600), FromHour(b / 3600);
    SameHour(a / 3600, b / 3600);
    hide Timed, Dated;
    if x.year == y.year && x.month == y.month && x.day == y.day {
      TimedOrder(x.hour, a / 60 % 60, a % 60, y.hour, b / 60 % 60, b % 60);
    }
    DatedOrder(x, y, Timed(x.hour, a / 60 % 60, a % 60), Timed(y.hour, b / 60 % 60, b % 60));
    ClockLength(a);
    ClockLength(b);
  }

  lemma SameHour(a: int, b: int)
    ensures a == b ==> FromHour(a) == FromHour(b)
  {
  }

  lemma SecondsApart(a: int, b: int)
    requires a < b
    ensures a / 3600 <= b / 3600
    ensures a / 3600 == b / 3600 ==> a / 60 % 60 < b / 60 % 60 || (a / 60 % 60 == b / 60 % 60 && a % 60 < b % 60)
  {
    assert a / 3600 == a / 60 / 60 && b / 3600 == b / 60 / 60;
    assert a == 60 * (a / 60) + a % 60 && b == 60 * (b / 60) + b % 60;
    assert a / 60 == 60 * (a / 60 / 60) + a / 60 % 60 && b / 60 == 60 * (b / 60 / 60) + b / 60 % 60;
  }

  lemma ClockLength(a: int)
    requires 0 <= FromHour(a / 3600).year <= 9999
    ensures |Clock(a)| == 19
  {
    hide Pad;
    var c := FromHour(a / 3600);
    hide FromHour;
    Widths();
    PadLength(c.year, 4);
    PadLength(c.month, 2);
    PadLength(c.day, 2);
    PadLength(c.hour, 2);
    PadLength(a / 60 % 60, 2);
    PadLength(a % 60, 2);
  }

  // ----- fractions do not quite

  lemma {:induction false} TrimOrder(a: string, b: string)
    requires |a| == |b| && AllDigits(a) && AllDigits(b) && Less(a, b)
    ensures Trim(b) != ""
    ensures Trim(a) < Trim(b) || (Trim(a) != "" && Less(Trim(a) + "Z", Trim(b) + "Z"))
  {
    assert Less(a, b) <==> if a[0] != b[0] then a[0] < b[0] else Less(a[1..], b[1..]);
    assert IsDigit(a[0]) && IsDigit(b[0]);
    var x, y := Trim(a[1..]), Trim(b[1..]);
    TrimHead(a);
    TrimHead(b);
    hide Trim, Less, IsDigit;
    assert [a[0]] + x + "Z" == [a[0]] + (x + "Z") && [b[0]] + y + "Z" == [b[0]] + (y + "Z");
    LessHead(a[0], x + "Z", b[0], y + "Z");
    if a[0] == b[0] { TrimOrder(a[1..], b[1..]); }
  }

  lemma TrimHead(s: string)
    requires s != ""
    ensures Trim(s) == if Trim(s[1..]) == "" && s[0] == '0' then "" else [s[0]] + Trim(s[1..])
  {
  }

  lemma LessHead(x: char, p: string, y: char, q: string)
    ensures Less([x] + p, [y] + q) == if x != y then x < y else Less(p, q)
  {
    assert ([x] + p)[1..] == p && ([y] + q)[1..] == q;
  }

  /** Where one fraction goes on from another, the shorter sorts after it: the
      letter that ends a moment is after every digit and after the point. */
  lemma {:induction false} LongerIsFirst(a: string, b: string)
    requires a < b && AllDigits(b)
    ensures Less(b + "Z", a + "Z")
  {
    if a == "" {
      assert IsDigit(b[0]);
    } else {
      assert (a + "Z")[1..] == a[1..] + "Z" && (b + "Z")[1..] == b[1..] + "Z";
      LongerIsFirst(a[1..], b[1..]);
    }
  }

  lemma PointFirst(d: string)
    ensures Less("." + d + "Z", "Z")
  {
  }

  lemma TrimmedDigits(t: int)
    ensures AllDigits(Digits(t))
  {
  }

  /** Keys of two moments are in the order of the moments, except within one
      second when the fraction of the later goes on from that of the earlier.
      The exception is the whole of it: there the order is the other way. */
  lemma KeysAreChronological(a: int, b: int)
    requires InYears(a) && InYears(b) && a < b
    ensures Less(Rfc3339Nano(a), Rfc3339Nano(b)) <==> !(a / NANOS == b / NANOS && Digits(a) < Digits(b))
    ensures Rfc3339Nano(a) != Rfc3339Nano(b)
  {
    hide Clock, Digits, Less, InYears;
    var x, y := Fraction(a) + "Z", Fraction(b) + "Z";
    if a / NANOS < b / NANOS {
      Seconds(a, b, x, y);
    } else {
      assert a / NANOS == b / NANOS;
      CommonPrefix(Clock(a / NANOS), x, y);
      FractionOrder(a, b);
    }
    Irreflexive(Rfc3339Nano(a));
  }

  lemma Seconds(a: int, b: int, x: string, y: string)
    requires InYears(a) && InYears(b) && a / NANOS < b / NANOS
    ensures Less(Clock(a / NANOS) + x, Clock(b / NANOS) + y)
  {
    hide Clock, FromHour;
    ClockOrder(a / NANOS, b / NANOS);
    Irreflexive(Clock(a / NANOS));
    Decided(Clock(a / NANOS), Clock(b / NANOS), x, y);
  }

  lemma FractionOrder(a: int, b: int)
    requires a / NANOS == b / NANOS && a < b
    ensures Less(Fraction(a) + "Z", Fraction(b) + "Z") <==> !(Digits(a) < Digits(b))
    ensures Fraction(a) + "Z" != Fraction(b) + "Z"
  {
    hide Less, Trim, Pad;
    assert a % NANOS < b % NANOS;
    NineDigits();
    PadOrder(a % NANOS, b % NANOS, 9);
    PadLength(a % NANOS, 9);
    PadLength(b % NANOS, 9);
    TrimOrder(Pad(a % NANOS, 9), Pad(b % NANOS, 9));
    TrimmedDigits(a);
    TrimmedDigits(b);
    FractionsDecide(Digits(a), Digits(b));
  }

  lemma NineDigits()
    ensures Pow10(9) == NANOS
  {
    assert Pow10(3) == 1000;
    assert Pow10(6) == 1000 * Pow10(3);
    assert Pow10(9) == 1000 * Pow10(6);
  }

  lemma FractionsDecide(d: string, e: string)
    requires AllDigits(d) && AllDigits(e) && e != ""
    requires d < e || (d != "" && Less(d + "Z", e + "Z"))
    ensures var x, y := (if d == "" then "" else "." + d) + "Z", (if e == "" then "" else "." + e) + "Z";
            (Less(x, y) <==> !(d < e)) && x != y
  {
    var x, y := (if d == "" then "" else "." + d) + "Z", (if e == "" then "" else "." + e) + "Z";
    assert y == "." + (e + "Z");
    if d < e {
      if d == "" {
        PointFirst(e);
        Asymmetric(y, x);
      } else {
        assert x == "." + (d + "Z");
        LongerIsFirst(d, e);
        CommonPrefix(".", e + "Z", d + "Z");
        Asymmetric(y, x);
      }
    } else {
      assert x == "." + (d + "Z");
      CommonPrefix(".", d + "Z", e + "Z");
      Irreflexive(x);
    }
  }
}
