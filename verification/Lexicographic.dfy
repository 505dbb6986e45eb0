/** Mixed-direction order on rows of keys: each position runs up or down, and
    the first position that differs decides. */
module Lexicographic {

  type Less<!K> = (K, K) -> bool

  ghost predicate Linear<K(!new)>(lt: Less<K>)
  {
    && (forall a :: !lt(a, a))
    && (forall a, b, c :: lt(a, b) && lt(b, c) ==> lt(a, c))
    && (forall a, b :: a == b || lt(a, b) || lt(b, a))
  }

  /** Ahead at one position: further on in its direction. */
  predicate Ahead<K>(lt: Less<K>, down: bool, a: K, b: K)
  {
    if down then lt(b, a) else lt(a, b)
  }

  predicate Before<K(==)>(lt: Less<K>, down: seq<bool>, a: seq<K>, b: seq<K>)
    requires |a| == |b| == |down|
  {
    down != [] &&
    if a[0] == b[0] then Before(lt, down[1..], a[1..], b[1..]) else Ahead(lt, down[0], a[0], b[0])
  }

  function Flipped(down: seq<bool>): (r: seq<bool>)
    ensures |r| == |down| && forall i :: 0 <= i < |r| ==> r[i] == !down[i]
  {
    seq(|down|, i requires 0 <= i < |down| => !down[i])
  }

  lemma {:induction false} BeforeIrreflexive<K(!new)>(lt: Less<K>, down: seq<bool>, a: seq<K>)
    requires |a| == |down|
    ensures !Before(lt, down, a, a)
  {
    if down != [] { BeforeIrreflexive(lt, down[1..], a[1..]); }
  }

  lemma {:induction false} BeforeTransitive<K(!new)>(lt: Less<K>, down: seq<bool>, a: seq<K>, b: seq<K>, c: seq<K>)
    requires Linear(lt) && |a| == |b| == |c| == |down| && Before(lt, down, a, b) && Before(lt, down, b, c)
    ensures Before(lt, down, a, c)
  {
    if a[0] == b[0] == c[0] { BeforeTransitive(lt, down[1..], a[1..], b[1..], c[1..]); }
  }

  lemma {:induction false} BeforeTotal<K(!new)>(lt: Less<K>, down: seq<bool>, a: seq<K>, b: seq<K>)
    requires Linear(lt) && |a| == |b| == |down|
    ensures a == b || Before(lt, down, a, b) || Before(lt, down, b, a)
  {
    if down != [] && a[0] == b[0] {
      BeforeTotal(lt, down[1..], a[1..], b[1..]);
      assert a == [a[0]] + a[1..] && b == [b[0]] + b[1..];
    }
  }

  /** Turning every direction round turns the order round. */
  lemma {:induction false} FlipTurns<K(!new)>(lt: Less<K>, down: seq<bool>, a: seq<K>, b: seq<K>)
    requires |a| == |b| == |down|
    ensures Before(lt, Flipped(down), a, b) == Before(lt, down, b, a)
  {
    if down != [] {
      assert Flipped(down)[1..] == Flipped(down[1..]);
      FlipTurns(lt, down[1..], a[1..], b[1..]);
    }
  }

  /** The first difference, found from the left. */
  method FirstDifference<K(==)>(lt: Less<K>, down: seq<bool>, a: seq<K>, b: seq<K>) returns (before: bool)
    requires |a| == |b| == |down|
    ensures before == Before(lt, down, a, b)
  {
    var i := 0;
    while i < |down|
      invariant 0 <= i <= |down|
      invariant Before(lt, down, a, b) == Before(lt, down[i..], a[i..], b[i..])
    {
      if a[i] != b[i] {
        return Ahead(lt, down[i], a[i], b[i]);
      }
      i := i + 1;
    }
    return false;
  }

  /** One disjunct: equal up to a position, and ahead there. */
  predicate DiffersAt<K(==)>(lt: Less<K>, down: seq<bool>, a: seq<K>, b: seq<K>, i: nat)
    requires |a| == |b| == |down| && i < |down|
  {
    a[..i] == b[..i] && Ahead(lt, down[i], a[i], b[i])
  }

  /** The disjunction over every position is the order. */
  lemma {:induction false} DisjunctsAreOrder<K(!new)>(lt: Less<K>, down: seq<bool>, a: seq<K>, b: seq<K>)
    requires |a| == |b| == |down| && (forall x :: !lt(x, x))
    ensures Before(lt, down, a, b) <==> exists i :: 0 <= i < |down| && DiffersAt(lt, down, a, b, i)
  {
    if down != [] {
      var d, x, y := down[1..], a[1..], b[1..];
      DisjunctsAreOrder(lt, d, x, y);
      if Before(lt, down, a, b) {
        if a[0] == b[0] {
          var i :| 0 <= i < |d| && DiffersAt(lt, d, x, y, i);
          Shifted(a, b, i);
          assert DiffersAt(lt, down, a, b, i + 1);
        } else {
          assert a[..0] == b[..0];
          assert DiffersAt(lt, down, a, b, 0);
        }
      }
      if i :| 0 <= i < |down| && DiffersAt(lt, down, a, b, i) {
        if i > 0 {
          Shifted(a, b, i - 1);
          assert a[..i][0] == b[..i][0];
          assert DiffersAt(lt, d, x, y, i - 1);
        }
      }
    }
  }

  lemma Shifted<K>(a: seq<K>, b: seq<K>, i: nat)
    requires |a| == |b| && i < |a|
    ensures a[..i + 1] == b[..i + 1] <==> a[0] == b[0] && a[1..][..i] == b[1..][..i]
  {
    assert a[..i + 1] == [a[0]] + a[1..][..i] && b[..i + 1] == [b[0]] + b[1..][..i];
    assert a[..i + 1][1..] == a[1..][..i] && b[..i + 1][1..] == b[1..][..i];
  }
}
