/** Moments in the database. The columns of index/postgres/schema/0001_index.sql
    that hold them are of whole microseconds, and a moment given as an argument
    is cut to one too; the rest of the program keeps nanoseconds. */
module Timestamptz {

  const MICRO := 1000

  /** A moment in nanoseconds, as a column holds it. */
  function Micros(t: int): int
  {
    t / MICRO
  }

  /** The moment read back from a column. */
  function Whole(t: int): (k: int)
    ensures k <= t < k + MICRO && Micros(k) == Micros(t) && (k == t <==> t % MICRO == 0)
  {
    t / MICRO * MICRO
  }

  /** A column tells a moment from a bound: it is not before it in the same
      microsecond. */
  predicate Tells(at: int, bound: int)
  {
    !(at < bound && Micros(at) == Micros(bound))
  }

  /** A comparison with a bound gives what it gives in nanoseconds, either way
      round, exactly when the column tells the two apart. */
  lemma BoundIsRightWhenTold(at: int, bound: int)
    ensures (Micros(bound) <= Micros(at) <==> bound <= at) <==> Tells(at, bound)
    ensures (Micros(at) < Micros(bound) <==> at < bound) <==> Tells(at, bound)
  {
  }

  /** A moment is found equal to one it equals and to no other exactly when the
      column tells them apart both ways. */
  lemma EqualIsRightWhenTold(a: int, b: int)
    ensures (Micros(a) == Micros(b) <==> a == b) <==> Tells(a, b) && Tells(b, a)
  {
  }
}
