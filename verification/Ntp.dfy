/** internal/clock/ntp.go: how far a clock is from a reference, from the four
    timestamps of section 8 of RFC 5905. Moments are in nanoseconds of Unix
    time. */
module Ntp {
  import opened Options
  import Calendar

  const EPOCH_OFFSET := 2_208_988_800
  const SECOND := 1_000_000_000
  const WORD := 0x1_0000_0000

  // ----- timestamps

  /** The part of a second in units of 2^-32. */
  function Fraction(nanos: int): int
  {
    nanos * WORD / SECOND
  }

  /** 32.32 fixed point, in 64 bits: the seconds keep their low word. */
  function Timestamp(t: int): int
  {
    (t / SECOND + EPOCH_OFFSET) % WORD * WORD + Fraction(t % SECOND)
  }

  /** The moment a timestamp names; zero names none. */
  function At(v: int): Option<int>
  {
    if v == 0 then None else Some((v / WORD - EPOCH_OFFSET) * SECOND + v % WORD * SECOND / WORD)
  }

  /** The seconds fit 32 bits: from 1900 until 2036. */
  predicate InEra(t: int)
  {
    0 <= t / SECOND + EPOCH_OFFSET < WORD
  }

  lemma FractionBounds(n: int)
    requires 0 <= n < SECOND
    ensures 0 <= Fraction(n) < WORD
  {
  }

  lemma FractionGrows(m: int, n: int)
    requires 0 <= m < n < SECOND
    ensures Fraction(m) < Fraction(n)
  {
    assert n * WORD >= m * WORD + WORD;
  }

  lemma Words(v: int, hi: int, lo: int)
    requires v == hi * WORD + lo && 0 <= lo < WORD
    ensures v / WORD == hi && v % WORD == lo
  {
  }

  /** Later moments have greater timestamps, as long as the seconds fit. */
  lemma TimestampIncreases(t: int, u: int)
    requires InEra(t) && InEra(u)
    ensures t < u <==> Timestamp(t) < Timestamp(u)
  {
    hide Fraction;
    FractionBounds(t % SECOND);
    FractionBounds(u % SECOND);
    if t % SECOND < u % SECOND { FractionGrows(t % SECOND, u % SECOND); }
    if u % SECOND < t % SECOND { FractionGrows(u % SECOND, t % SECOND); }
  }

  /** A fraction written and read again loses a nanosecond unless it is a whole
      number of units, which one nanosecond in 5^9 is. */
  lemma FractionBack(n: int)
    requires 0 <= n < SECOND
    ensures Fraction(n) * SECOND / WORD == if n * WORD % SECOND == 0 then n else n - 1
  {
    var f, r := Fraction(n), n * WORD % SECOND;
    assert f * SECOND == n * WORD - r;
    if r > 0 {
      assert f * SECOND == (n - 1) * WORD + (WORD - r);
      Words(f * SECOND, n - 1, WORD - r);
    } else {
      Words(f * SECOND, n, 0);
    }
  }

  const FIFTHS := 1_953_125

  lemma FromFifths(n: int, k: int)
    requires n == k * FIFTHS
    ensures n * WORD == (k * 8_388_608) * SECOND
  {
  }

  /** 1241897 is the inverse of 2^23 modulo 5^9. */
  lemma ToFifths(n: int, k: int)
    requires n * WORD == k * SECOND
    ensures n == (1_241_897 * k - 5333907 * n) * FIFTHS
  {
    assert n * 8_388_608 == k * FIFTHS;
  }

  lemma Seconds(k: int)
    ensures k * SECOND % SECOND == 0
  {
  }

  lemma Fifths(k: int)
    ensures k * FIFTHS % FIFTHS == 0
  {
  }

  lemma WholeUnits(n: int)
    ensures n * WORD % SECOND == 0 <==> n % FIFTHS == 0
  {
    if n % FIFTHS == 0 {
      var k := n / FIFTHS;
      FromFifths(n, k);
      Seconds(k * 8_388_608);
    }
    if n * WORD % SECOND == 0 {
      var k := n * WORD / SECOND;
      ToFifths(n, k);
      Fifths(1_241_897 * k - 5333907 * n);
    }
  }

  /** A moment written and read again: itself when its part of a second is a
      multiple of 5^9 nanoseconds and one less otherwise, and none at all for
      the one moment whose timestamp is zero. */
  lemma AtOfTimestamp(t: int)
    requires InEra(t)
    ensures At(Timestamp(t)) ==
            if t == -EPOCH_OFFSET * SECOND then None
            else Some(if t % SECOND % FIFTHS == 0 then t else t - 1)
  {
    hide Fraction;
    var n := t % SECOND;
    FractionBounds(n);
    FractionBack(n);
    WholeUnits(n);
    Words(Timestamp(t), t / SECOND + EPOCH_OFFSET, Fraction(n));
    ZeroTimestamp(t);
  }

  lemma ZeroTimestamp(t: int)
    requires InEra(t)
    ensures Timestamp(t) == 0 <==> t == -EPOCH_OFFSET * SECOND
  {
    var zero := -EPOCH_OFFSET * SECOND;
    assert Timestamp(zero) == 0;
    TimestampIncreases(t, zero);
    TimestampIncreases(zero, t);
  }

  /** Outside the era the moment read is another one, 2^32 seconds away or more. */
  lemma AnotherEra(t: int)
    requires At(Timestamp(t)).Some?
    ensures t - 1 <= At(Timestamp(t)).value <= t <==> InEra(t)
  {
    hide Fraction;
    var n, s := t % SECOND, t / SECOND + EPOCH_OFFSET;
    FractionBounds(n);
    FractionBack(n);
    Words(Timestamp(t), s % WORD, Fraction(n));
    var back := At(Timestamp(t)).value;
    assert back == (s % WORD - EPOCH_OFFSET) * SECOND + Fraction(n) * SECOND / WORD;
    assert t == (s - EPOCH_OFFSET) * SECOND + n;
    SameEra(s, n, Fraction(n) * SECOND / WORD);
  }

  lemma SameEra(s: int, n: int, m: int)
    requires 0 <= n < SECOND && n - 1 <= m <= n
    ensures 0 <= (s * SECOND + n) - (s % WORD * SECOND + m) <= 1 <==> 0 <= s < WORD
  {
    if s % WORD != s { assert s - s % WORD >= WORD || s - s % WORD <= -WORD; }
  }

  // ----- a reading

  datatype Reply = Reply(size: int, mode: int, stratum: int, echoed: int, received: int, sent: int)

  datatype Failure = Short | NotAServer | KissOfDeath | Unsynchronised | AnotherRequest | NoTime | Unreachable

  datatype Reading = Reading(offset: int, delay: int, stratum: int)

  datatype Result = Ok(reading: Reading) | Failed(failure: Failure)

  /** Half, towards zero. */
  function Half(d: int): int
  {
    if d >= 0 then d / 2 else -(-d / 2)
  }

  function Offset(sent: int, serverReceived: int, serverSent: int, received: int): int
  {
    Half((serverReceived - sent) + (serverSent - received))
  }

  function Delay(sent: int, serverReceived: int, serverSent: int, received: int): int
  {
    var d := (received - sent) - (serverSent - serverReceived);
    if d < 0 then 0 else d
  }

  /** What a reply to a request that was sent at one moment and received at
      another says of this clock. */
  function Judge(sent: int, reply: Reply, received: int): Result
  {
    if reply.size < 48 then Failed(Short)
    else if reply.mode != 4 then Failed(NotAServer)
    else if reply.stratum == 0 then Failed(KissOfDeath)
    else if reply.stratum > 15 then Failed(Unsynchronised)
    else if reply.echoed != Timestamp(sent) then Failed(AnotherRequest)
    else if At(reply.sent).None? || At(reply.received).None? then Failed(NoTime)
    else
      var there, back := At(reply.received).value, At(reply.sent).value;
      Ok(Reading(Offset(sent, there, back, received), Delay(sent, there, back, received), reply.stratum))
  }

  /** A reference whose clock is `truth` ahead of this one, over a path that takes
      `out` there and `back` again, answers with the moments it read. */
  ghost predicate Answers(sent: int, reply: Reply, received: int, truth: int, out: int, back: int)
  {
    && 0 <= out && 0 <= back
    && exists held: int :: 0 <= held && Stamped(sent, reply, received, truth, out, back, held)
  }

  ghost predicate Stamped(sent: int, reply: Reply, received: int, truth: int, out: int, back: int, held: int)
  {
    var arrived := sent + truth + out;
    && InEra(arrived) && InEra(arrived + held)
    && reply.received == Timestamp(arrived) && reply.sent == Timestamp(arrived + held)
    && received == sent + out + held + back
  }

  /** Which replies are taken: whole ones from a server that is synchronised, that
      echo the request, and that name both moments. */
  lemma JudgeTakes(sent: int, reply: Reply, received: int)
    ensures Judge(sent, reply, received).Ok? <==>
            && reply.size >= 48 && reply.mode == 4 && 0 != reply.stratum <= 15 && reply.echoed == Timestamp(sent)
            && reply.received != 0 && reply.sent != 0
    ensures Judge(sent, reply, received).Ok? ==>
              var reading := Judge(sent, reply, received).reading;
              reading.stratum == reply.stratum && 0 <= reading.delay
  {
    hide Timestamp, Offset;
  }

  /** What is read of one that is taken: half of the sum of what either way seems to
      be ahead, rounded towards nothing, and the time the whole exchange took
      without the time at the server. */
  lemma JudgeReads(sent: int, reply: Reply, received: int)
    requires Judge(sent, reply, received).Ok?
    ensures At(reply.received).Some? && At(reply.sent).Some?
    ensures var there, back, reading :=
              At(reply.received).value, At(reply.sent).value, Judge(sent, reply, received).reading;
            var ahead := there - sent + back - received;
            && (ahead >= 0 ==> 2 * reading.offset <= ahead <= 2 * reading.offset + 1)
            && (ahead <= 0 ==> 2 * reading.offset - 1 <= ahead <= 2 * reading.offset)
            && (reading.delay == 0 <==> received - sent <= back - there)
            && (reading.delay > 0 ==> reading.delay + (back - there) == received - sent)
  {
    hide Timestamp, At;
  }

  /** Why one is not, the first reason that holds. */
  lemma JudgeRefuses(sent: int, reply: Reply, received: int)
    ensures var f := Judge(sent, reply, received);
            && (f == Failed(Short) <==> reply.size < 48)
            && (f == Failed(NotAServer) <==> reply.size >= 48 && reply.mode != 4)
            && (f == Failed(KissOfDeath) <==> reply.size >= 48 && reply.mode == 4 && reply.stratum == 0)
            && (f == Failed(Unsynchronised) <==> reply.size >= 48 && reply.mode == 4 && reply.stratum > 15)
            && (f == Failed(AnotherRequest) <==>
                  && reply.size >= 48 && reply.mode == 4 && 0 != reply.stratum <= 15
                  && reply.echoed != Timestamp(sent))
            && (f == Failed(NoTime) <==>
                  && reply.size >= 48 && reply.mode == 4 && 0 != reply.stratum <= 15
                  && reply.echoed == Timestamp(sent) && (reply.received == 0 || reply.sent == 0))
  {
    hide Timestamp, Offset, Delay;
  }

  /** A reply answers one request: it is taken for no other that was sent in the
      era. */
  lemma OneRequest(sent: int, other: int, reply: Reply, received: int, later: int)
    requires InEra(sent) && InEra(other)
    requires Judge(sent, reply, received).Ok? && Judge(other, reply, later).Ok?
    ensures sent == other
  {
    hide Timestamp, Offset, Delay, At;
    TimestampIncreases(sent, other);
    TimestampIncreases(other, sent);
  }

  lemma HalfOf(d: int)
    ensures -1 <= 2 * Half(d) - d <= 1
  {
  }

  /** A recorded offset is within half the recorded delay of the truth, but for
      the nanosecond and a half that stamping and halving round away. */
  lemma OffsetIsWithinHalfTheDelay(sent: int, reply: Reply, received: int, truth: int, out: int, back: int)
    requires Answers(sent, reply, received, truth, out, back) && Judge(sent, reply, received).Ok?
    ensures var r := Judge(sent, reply, received).reading;
            -(r.delay + 3) <= 2 * (r.offset - truth) <= r.delay + 1
  {
    hide Timestamp, Half;
    var held :| 0 <= held && Stamped(sent, reply, received, truth, out, back, held);
    var arrived := sent + truth + out;
    AtOfTimestamp(arrived);
    AtOfTimestamp(arrived + held);
    var there, away := At(reply.received).value, At(reply.sent).value;
    HalfOf((there - sent) + (away - received));
  }

  /** A request and its reply, and how long the path took each way. */
  datatype Exchange = Exchange(sent: int, reply: Reply, received: int, out: int, back: int)

  /** An exchange with a reference that is `truth` ahead, and its reading. */
  ghost predicate Reads(x: Exchange, truth: int, r: Reading)
  {
    Answers(x.sent, x.reply, x.received, truth, x.out, x.back) && Judge(x.sent, x.reply, x.received) == Ok(r)
  }

  lemma SmallMoments(t: int)
    requires 0 <= t < FIFTHS
    ensures InEra(t) && At(Timestamp(t)) == Some(if t == 0 then t else t - 1)
  {
    AtOfTimestamp(t);
  }

  /** A reply to a request sent at zero. */
  function ReplyAt(arrived: int, left: int): Reply
  {
    Reply(48, 4, 1, Timestamp(0), Timestamp(arrived), Timestamp(left))
  }

  lemma ReadsAs(truth: int, out: nat, back: nat, held: nat)
    requires 0 <= truth + out && truth + out + held < FIFTHS
    ensures var there, away := truth + out, truth + out + held;
            var x, y := if there == 0 then 0 else there - 1, if away == 0 then 0 else away - 1;
            var received := out + held + back;
            Reads(Exchange(0, ReplyAt(there, away), received, out, back), truth,
                  Reading(Offset(0, x, y, received), Delay(0, x, y, received), 1))
  {
    var there, away := truth + out, truth + out + held;
    SmallMoments(there);
    SmallMoments(away);
    hide Timestamp, At, Offset, Delay, InEra;
    assert Stamped(0, ReplyAt(there, away), out + held + back, truth, out, back, held);
  }

  /** The bound is reached below, so it cannot be drawn closer: over a path with
      no delay out and one nanosecond back. */
  lemma LowerBoundIsReached()
    ensures exists x, truth, r :: Reads(x, truth, r) && 2 * (r.offset - truth) == -(r.delay + 3)
  {
    hide Reads, ReplyAt, Timestamp;
    ReadsAs(10, 0, 1, 1);
    assert Offset(0, 9, 10, 2) == 8 && Delay(0, 9, 10, 2) == 1;
    assert Reads(Exchange(0, ReplyAt(10, 11), 2, 0, 1), 10, Reading(8, 1, 1));
  }

  /** And above: over one with a nanosecond out and none back. */
  lemma UpperBoundIsReached()
    ensures exists x, truth, r :: Reads(x, truth, r) && 2 * (r.offset - truth) == r.delay + 1
  {
    hide Reads, ReplyAt;
    var x, r := ReadsOneAhead();
    assert Reads(x, -1, r) && 2 * (r.offset - -1) == r.delay + 1;
  }

  lemma ReadsOneAhead() returns (x: Exchange, r: Reading)
    ensures Reads(x, -1, r) && r.offset == 0 && r.delay == 1
  {
    x, r := Exchange(0, ReplyAt(0, 0), 1, 1, 0), Reading(Offset(0, 0, 0, 1), Delay(0, 0, 0, 1), 1);
    hide Reads, ReplyAt;
    ReadsAs(-1, 1, 0, 0);
  }

  // ----- the best of several

  ghost predicate IsBest(results: seq<Result>, best: Reading)
  {
    && Ok(best) in results
    && forall r :: r in results && r.Ok? ==> best.delay <= r.reading.delay
  }

  /** Each server's answer in turn; the first of the shortest round trips wins. */
  /** The failures among some answers, in their order. */
  function Failures(results: seq<Result>): seq<Failure>
  {
    if results == [] then []
    else
      var last := results[|results| - 1];
      Failures(results[..|results| - 1]) + if last.Failed? then [last.failure] else []
  }

  /** A reading at a place, and none before that took as short a time. */
  ghost predicate FirstBest(results: seq<Result>, best: Reading, at: nat)
  {
    && at < |results| && results[at] == Ok(best)
    && forall i :: 0 <= i < at && results[i].Ok? ==> best.delay < results[i].reading.delay
  }

  method Best(results: seq<Result>) returns (best: Option<Reading>, failures: seq<Failure>)
    ensures best.None? <==> forall r :: r in results ==> r.Failed?
    ensures best.Some? ==> IsBest(results, best.value)
    ensures best.Some? ==> exists at :: 0 <= at < |results| && FirstBest(results, best.value, at)
    ensures failures == Failures(results)
  {
    best, failures := None, [];
    ghost var at := 0;
    for i := 0 to |results|
      invariant best.None? <==> forall k :: 0 <= k < i ==> results[k].Failed?
      invariant best.Some? ==> 0 <= at < i && FirstBest(results, best.value, at)
      invariant best.Some? ==> forall k :: 0 <= k < i && results[k].Ok? ==> best.value.delay <= results[k].reading.delay
      invariant failures == Failures(results[..i])
    {
      assert results[..i + 1][..i] == results[..i];
      match results[i]
      case Failed(f) => failures := failures + [f];
      case Ok(reading) =>
        if best.None? || reading.delay < best.value.delay { best, at := Some(reading), i; }
    }
    assert results[..|results|] == results;
  }

  /** Each answer that was taken is of an exchange with a reference that is
      `truth` ahead of this clock. */
  ghost predicate Measured(exchanges: seq<Exchange>, results: seq<Result>, truth: int)
  {
    && |exchanges| == |results|
    && forall i :: 0 <= i < |results| && results[i].Ok? ==>
         var x := exchanges[i];
         Answers(x.sent, x.reply, x.received, truth, x.out, x.back) && results[i] == Judge(x.sent, x.reply, x.received)
  }

  /** The reading chosen is as near the truth as any of the answers could show:
      its error is within the bound of every one of them. */
  lemma BestBoundsTheError(exchanges: seq<Exchange>, results: seq<Result>, truth: int, best: Reading, i: nat)
    requires Measured(exchanges, results, truth) && IsBest(results, best) && i < |results| && results[i].Ok?
    ensures -(results[i].reading.delay + 3) <= 2 * (best.offset - truth) <= results[i].reading.delay + 1
  {
    hide Answers, Judge;
    var k :| 0 <= k < |results| && results[k] == Ok(best);
    var x := exchanges[k];
    OffsetIsWithinHalfTheDelay(x.sent, x.reply, x.received, truth, x.out, x.back);
    assert results[i] in results;
  }

  /** Seconds are counted from the beginning of 1900, and moments from that of 1970. */
  lemma CountsFrom1900()
    ensures EPOCH_OFFSET == 3600 * (Calendar.Date(1970, 1, 1, 0) - Calendar.Date(1900, 1, 1, 0))
  {
    assert Calendar.Date(1970, 1, 1, 0) == 17268672;
  }
}
