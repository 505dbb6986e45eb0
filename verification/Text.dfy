/** Decimal fields of a fixed width, and the parts of a slash-separated key. */
module Text {
  import opened Lex

  const DIGITS := "0123456789"

  predicate IsDigit(c: char)
  {
    '0' <= c <= '9'
  }

  predicate AllDigits(s: string)
  {
    forall i :: 0 <= i < |s| ==> IsDigit(s[i])
  }

  function DigitOf(c: char): (d: int)
    requires IsDigit(c)
    ensures 0 <= d < 10 && DIGITS[d] == c
  {
    c as int - '0' as int
  }

  /** What the digits of a field add up to, most significant first. */
  function Value(s: string): (n: nat)
    requires AllDigits(s)
  {
    if s == "" then 0 else 10 * Value(s[..|s| - 1]) + DigitOf(s[|s| - 1])
  }

  /** A number in at least `w` digits, zeros to the left. */
  function Pad(n: nat, w: nat): (s: string)
    ensures AllDigits(s) && Value(s) == n
    decreases w, n
  {
    if n == 0 && w == 0 then ""
    else
      var front := Pad(n / 10, if w == 0 then 0 else w - 1);
      var s := front + [DIGITS[n % 10]];
      assert s[..|s| - 1] == front;
      s
  }

  /** The same of any integer, a sign before the digits of a negative one. */
  function PadInt(n: int, w: nat): string
  {
    if n < 0 then "-" + Pad(-n, w) else Pad(n, w)
  }

  function Pow10(w: nat): (p: nat)
    ensures p > 0
  {
    if w == 0 then 1 else 10 * Pow10(w - 1)
  }

  lemma {:induction false} PadLength(n: nat, w: nat)
    ensures |Pad(n, w)| >= w
    ensures |Pad(n, w)| == w <==> n < Pow10(w)
    decreases w, n
  {
    if w > 0 { PadLength(n / 10, w - 1); }
    else if n > 0 { PadLength(n / 10, 0); }
  }

  lemma {:induction false} ValueBound(s: string)
    requires AllDigits(s)
    ensures Value(s) < Pow10(|s|)
  {
    if s != "" { ValueBound(s[..|s| - 1]); }
  }

  /** Reading and writing a field are inverse. */
  lemma {:induction false} PadOfValue(s: string)
    requires AllDigits(s)
    ensures Pad(Value(s), |s|) == s
  {
    if s != "" {
      var front := s[..|s| - 1];
      PadOfValue(front);
      assert Value(s) / 10 == Value(front) && Value(s) % 10 == DigitOf(s[|s| - 1]);
      assert s == front + [s[|s| - 1]];
    }
  }

  lemma DigitOrder(a: nat, b: nat)
    requires a < 10 && b < 10
    ensures Less([DIGITS[a]], [DIGITS[b]]) <==> a < b
  {
    assert forall i :: 0 <= i < 10 ==> DIGITS[i] as int == '0' as int + i;
  }

  lemma PadUnfold(n: nat, w: nat)
    requires w > 0 && n < Pow10(w)
    ensures n / 10 < Pow10(w - 1) && |Pad(n / 10, w - 1)| == w - 1
    ensures Pad(n, w) == Pad(n / 10, w - 1) + [DIGITS[n % 10]]
  {
    PadLength(n / 10, w - 1);
  }

  /** Fields of one width sort as their numbers do. */
  lemma {:induction false} PadOrder(a: nat, b: nat, w: nat)
    requires a < b < Pow10(w)
    ensures Less(Pad(a, w), Pad(b, w))
    decreases w
  {
    PadUnfold(a, w);
    PadUnfold(b, w);
    PadOrderStep(a / 10, b / 10, a % 10, b % 10, w - 1);
    if a / 10 < b / 10 { PadOrder(a / 10, b / 10, w - 1); }
  }

  lemma PadOrderStep(a: nat, b: nat, x: nat, y: nat, w: nat)
    requires x < 10 && y < 10
    requires |Pad(a, w)| == |Pad(b, w)| == w
    ensures a == b ==> (Less(Pad(a, w) + [DIGITS[x]], Pad(b, w) + [DIGITS[y]]) <==> x < y)
    ensures Less(Pad(a, w), Pad(b, w)) ==> Less(Pad(a, w) + [DIGITS[x]], Pad(b, w) + [DIGITS[y]])
  {
    DigitOrder(x, y);
    CommonPrefix(Pad(a, w), [DIGITS[x]], [DIGITS[y]]);
    Irreflexive(Pad(a, w));
    if Pad(a, w) != Pad(b, w) { Decided(Pad(a, w), Pad(b, w), [DIGITS[x]], [DIGITS[y]]); }
  }

  /** Reads a field of exactly `width` digits, adding them up from the left. */
  method ReadNumber(part: string, width: nat) returns (ok: bool, n: nat)
    ensures ok <==> |part| == width && AllDigits(part)
    ensures ok ==> n == Value(part)
  {
    n := 0;
    if |part| != width {
      return false, n;
    }
    var i := 0;
    while i < |part|
      invariant 0 <= i <= |part|
      invariant AllDigits(part[..i])
      invariant n == Value(part[..i])
    {
      if !IsDigit(part[i]) {
        return false, n;
      }
      n := 10 * n + DigitOf(part[i]);
      assert part[..i + 1][..i] == part[..i];
      i := i + 1;
    }
    assert part[..i] == part;
    return true, n;
  }

  // ----- parts between slashes

  predicate NoSlash(s: string)
  {
    '/' !in s
  }

  /** One more character at the front of a split string. */
  function Before(c: char, parts: seq<string>): seq<string>
    requires parts != []
  {
    if c == '/' then [""] + parts else [[c] + parts[0]] + parts[1..]
  }

  function Split(s: string): (parts: seq<string>)
    ensures parts != []
    ensures forall i :: 0 <= i < |parts| ==> NoSlash(parts[i])
  {
    if s == "" then [""] else Before(s[0], Split(s[1..]))
  }

  function Join(parts: seq<string>): string
    requires parts != []
  {
    if |parts| == 1 then parts[0] else parts[0] + "/" + Join(parts[1..])
  }

  lemma {:induction false} JoinOfSplit(s: string)
    ensures Join(Split(s)) == s
  {
    if s != "" {
      var rest := Split(s[1..]);
      JoinOfSplit(s[1..]);
      if s[0] == '/' {
        assert ([""] + rest)[1..] == rest;
        assert s == "/" + s[1..];
      } else {
        assert ([[s[0]] + rest[0]] + rest[1..])[1..] == rest[1..];
        assert s == [s[0]] + s[1..];
      }
    }
  }

  lemma {:induction false} SplitOne(s: string)
    requires NoSlash(s)
    ensures Split(s) == [s]
  {
    if s != "" {
      SplitOne(s[1..]);
      assert s == [s[0]] + s[1..];
    }
  }

  lemma BeforeConcat(c: char, x: seq<string>, y: seq<string>)
    requires x != []
    ensures Before(c, x + y) == Before(c, x) + y
  {
    if c == '/' {
      assert [""] + (x + y) == ([""] + x) + y;
    } else {
      assert (x + y)[1..] == x[1..] + y;
      assert [[c] + x[0]] + (x[1..] + y) == ([[c] + x[0]] + x[1..]) + y;
    }
  }

  /** Every slash ends a part. */
  lemma {:induction false} SplitAfter(a: string, rest: string)
    ensures Split(a + "/" + rest) == Split(a) + Split(rest)
  {
    var s := a + "/" + rest;
    if a == "" {
      assert s[1..] == rest;
    } else {
      assert s[1..] == a[1..] + "/" + rest;
      SplitAfter(a[1..], rest);
      BeforeConcat(a[0], Split(a[1..]), Split(rest));
    }
  }

  lemma SplitInjective(a: string, b: string)
    requires Split(a) == Split(b)
    ensures a == b
  {
    JoinOfSplit(a);
    JoinOfSplit(b);
  }

  lemma SplitCons(a: string, rest: string)
    requires NoSlash(a)
    ensures Split(a + "/" + rest) == [a] + Split(rest)
  {
    SplitOne(a);
    SplitAfter(a, rest);
  }
}
