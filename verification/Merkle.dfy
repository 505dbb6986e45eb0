/** internal/merkle: the tree of RFC 6962 over the records of an hour, the audit
    path that proves one record, and the iterative check of RFC 9162.

    Hashes are the terms of a free algebra: equal hashes have equal inputs, and
    a leaf, a node and the empty hash are never equal. `Foreign` stands for
    every value that is the hash of nothing, as a forged path may hold. */
module Merkle {
  import opened Options

  datatype Hash = Empty | Leaf(input: string) | Node(left: Hash, right: Hash) | Foreign(n: nat)

  /** `n` doubled `d` times. */
  function Scale(n: nat, d: nat): (r: nat)
    ensures n <= r
  {
    if d == 0 then n else 2 * Scale(n, d - 1)
  }

  /** `n` halved `d` times, rounding down. */
  function Halve(n: nat, d: nat): nat
  {
    if d == 0 then n else Halve(n / 2, d - 1)
  }

  /** The largest power of two smaller than `n`: where `n` leaves divide. */
  function SplitAt(n: nat): (k: nat)
    requires 1 < n
    ensures 0 < k < n <= 2 * k
  {
    if n == 2 then 1 else 2 * SplitAt((n + 1) / 2)
  }

  function Root(leaves: seq<Hash>): Hash
    decreases |leaves|
  {
    if leaves == [] then Empty
    else if |leaves| == 1 then leaves[0]
    else
      var k := SplitAt(|leaves|);
      Node(Root(leaves[..k]), Root(leaves[k..]))
  }

  function Path(m: nat, leaves: seq<Hash>): seq<Hash>
    requires m < |leaves|
    decreases |leaves|
  {
    if |leaves| == 1 then []
    else
      var k := SplitAt(|leaves|);
      if m < k then Path(m, leaves[..k]) + [Root(leaves[k..])]
      else Path(m - k, leaves[k..]) + [Root(leaves[..k])]
  }

  /** Both positions shifted right until the first is odd or zero. */
  function Shift(fn: nat, sn: nat): (nat, nat)
  {
    if fn % 2 == 0 && fn != 0 then Shift(fn / 2, sn / 2) else (fn, sn)
  }

  /** One turn of the check: what the positions and the hash become. */
  function Turn(fn: nat, sn: nat, r: Hash, p: Hash): (nat, nat, Hash)
  {
    if fn % 2 == 1 || fn == sn then
      var (f, s) := if fn % 2 == 0 then Shift(fn, sn) else (fn, sn);
      (f / 2, s / 2, Node(p, r))
    else (fn / 2, sn / 2, Node(r, p))
  }

  /** The hash a path leads to, or none when the path is not of the length the
      tree's shape gives. */
  function Climb(fn: nat, sn: nat, r: Hash, proof: seq<Hash>): Option<Hash>
    decreases |proof|
  {
    if proof == [] then (if sn == 0 then Some(r) else None)
    else if sn == 0 then None
    else
      var (f, s, h) := Turn(fn, sn, r, proof[0]);
      Climb(f, s, h, proof[1..])
  }

  /** The check as it runs, from the leaf up. */
  method Verify(leaf: Hash, index: int, size: int, proof: seq<Hash>, root: Hash) returns (ok: bool)
    ensures ok <==> 0 <= index < size && Climb(index, size - 1, leaf, proof) == Some(root)
  {
    if size <= 0 || index < 0 || index >= size {
      return false;
    }
    var fn: nat, sn: nat, r := index, size - 1, leaf;
    var i := 0;
    while i < |proof|
      invariant 0 <= i <= |proof|
      invariant Climb(index, size - 1, leaf, proof) == Climb(fn, sn, r, proof[i..])
    {
      if sn == 0 {
        return false;
      }
      ghost var was := (fn, sn, r);
      assert proof[i..][0] == proof[i] && proof[i..][1..] == proof[i + 1..];
      if fn % 2 == 1 || fn == sn {
        r := Node(proof[i], r);
        if fn % 2 == 0 {
          ghost var end := Shift(fn, sn);
          while fn % 2 == 0 && fn != 0
            invariant Shift(fn, sn) == end
            decreases fn
          {
            fn, sn := fn / 2, sn / 2;
          }
        }
      } else {
        r := Node(r, proof[i]);
      }
      fn, sn := fn / 2, sn / 2;
      assert (fn, sn, r) == Turn(was.0, was.1, was.2, proof[i]);
      i := i + 1;
    }
    return sn == 0 && r == root;
  }

  // ----- a path that was made leads to the root

  lemma {:induction false} ScaleDown(n: nat, d: nat)
    requires 0 < d
    ensures Scale(n, d) == Scale(2 * n, d - 1) == 2 * Scale(n, d - 1)
  {
    if d > 1 { ScaleDown(n, d - 1); }
  }

  lemma {:induction false} ScaleAgain(n: nat, a: nat, b: nat)
    ensures Scale(Scale(n, a), b) == Scale(n, a + b)
  {
    if b > 0 { ScaleAgain(n, a, b - 1); }
  }

  lemma {:induction false} ScaleNext(n: nat, d: nat)
    ensures Scale(n, d) + Scale(1, d) == Scale(n + 1, d)
  {
    if d > 0 { ScaleNext(n, d - 1); }
  }

  lemma {:induction false} PowersGrow(a: nat, b: nat)
    requires a < b
    ensures Scale(1, a) < Scale(1, b)
    decreases b - a
  {
    if a + 1 < b { PowersGrow(a, b - 1); }
  }

  lemma {:induction false} HalveScaled(n: nat, x: nat, d: nat)
    requires x < Scale(1, d)
    ensures Halve(Scale(n, d) + x, d) == n
  {
    if d > 0 {
      assert (Scale(n, d) + x) / 2 == Scale(n, d - 1) + x / 2;
      HalveScaled(n, x / 2, d - 1);
    }
  }

  lemma {:induction false} HalveLast(n: nat, d: nat)
    ensures Halve(n, d + 1) == Halve(n, d) / 2
  {
    if d > 0 { HalveLast(n / 2, d - 1); }
  }

  lemma {:induction false} HalveAtLeast(s: nat, a: nat, d: nat)
    requires Scale(a, d) <= s
    ensures a <= Halve(s, d)
  {
    if d > 0 { HalveAtLeast(s / 2, a, d - 1); }
  }

  lemma {:induction false} ShiftScaled(j: nat, e: nat)
    requires j % 2 == 1
    ensures Shift(Scale(j, e), Scale(j, e)) == (j, j)
  {
    if e > 0 { ShiftScaled(j, e - 1); }
  }

  lemma {:induction false} SplitIsPower(n: nat) returns (b: nat)
    requires 1 < n
    ensures SplitAt(n) == Scale(1, b)
  {
    if n == 2 {
      b := 0;
    } else {
      b := SplitIsPower((n + 1) / 2);
      b := b + 1;
    }
  }

  lemma {:induction false} SplitOfPower(d: nat)
    requires 0 < d
    ensures 1 < Scale(1, d) && SplitAt(Scale(1, d)) == Scale(1, d - 1)
  {
    if d > 1 {
      SplitOfPower(d - 1);
      assert (Scale(1, d) + 1) / 2 == Scale(1, d - 1);
    }
  }

  lemma ClimbStep(fn: nat, sn: nat, r: Hash, p: Hash, rest: seq<Hash>)
    requires sn != 0
    ensures Climb(fn, sn, r, [p] + rest) == (var t := Turn(fn, sn, r, p); Climb(t.0, t.1, t.2, rest))
  {
    assert ([p] + rest)[1..] == rest;
  }

  /** A tree and a path in it, one level down. */
  lemma Unfold(leaves: seq<Hash>, k: nat, m: nat, rest: seq<Hash>)
    requires 1 < |leaves| && k == SplitAt(|leaves|) && m < |leaves|
    ensures Root(leaves) == Node(Root(leaves[..k]), Root(leaves[k..]))
    ensures m < k ==> Path(m, leaves) + rest == Path(m, leaves[..k]) + ([Root(leaves[k..])] + rest)
    ensures k <= m ==> Path(m, leaves) + rest == Path(m - k, leaves[k..]) + ([Root(leaves[..k])] + rest)
  {
    UnfoldPath(leaves, k, m);
    hide Path, SplitAt;
    if m < k {
      Regroup(Path(m, leaves[..k]), Root(leaves[k..]), rest);
    } else {
      Regroup(Path(m - k, leaves[k..]), Root(leaves[..k]), rest);
    }
  }

  lemma UnfoldPath(leaves: seq<Hash>, k: nat, m: nat)
    requires 1 < |leaves| && k == SplitAt(|leaves|) && m < |leaves|
    ensures m < k ==> Path(m, leaves) == Path(m, leaves[..k]) + [Root(leaves[k..])]
    ensures k <= m ==> Path(m, leaves) == Path(m - k, leaves[k..]) + [Root(leaves[..k])]
  {
    hide SplitAt, Root;
  }

  lemma Regroup(path: seq<Hash>, h: Hash, rest: seq<Hash>)
    ensures (path + [h]) + rest == path + ([h] + rest)
  {
  }

  /** The turn above a subtree that has more of the tree to its right. */
  lemma TurnInside(a: nat, sn: nat, left: Hash, right: Hash, rest: seq<Hash>)
    requires 2 * (a + 1) <= sn
    ensures Climb(2 * a, sn, left, [right] + rest) == Climb(a, sn / 2, Node(left, right), rest)
    ensures Climb(2 * a + 1, sn, right, [left] + rest) == Climb(a, sn / 2, Node(left, right), rest)
  {
    ClimbStep(2 * a, sn, left, right, rest);
    ClimbStep(2 * a + 1, sn, right, left, rest);
    assert (2 * a + 1) / 2 == a && (2 * a) / 2 == a && (2 * a) % 2 == 0 && (2 * a + 1) % 2 == 1;
  }

  lemma CompletePosition(a: nat, s: nat, d: nat)
    requires 0 < d && Scale(a + 1, d) <= s
    ensures 1 < Scale(1, d) == 2 * Scale(1, d - 1) && SplitAt(Scale(1, d)) == Scale(1, d - 1)
    ensures Scale(a, d) == Scale(2 * a, d - 1)
    ensures Scale(a, d) + Scale(1, d - 1) == Scale(2 * a + 1, d - 1) <= s
    ensures Scale(2 * a + 2, d - 1) <= s
    ensures Halve(s, d) == Halve(s, d - 1) / 2 && 2 * (a + 1) <= Halve(s, d - 1)
  {
    hide Scale, Halve, SplitAt;
    SplitOfPower(d);
    ScaleDown(1, d);
    ScaleDown(a, d);
    ScaleDown(a + 1, d);
    ScaleNext(2 * a, d - 1);
    ScaleNext(2 * a + 1, d - 1);
    HalveLast(s, d - 1);
    HalveAtLeast(s, 2 * (a + 1), d - 1);
  }

  lemma OneLeaf(leaves: seq<Hash>, rest: seq<Hash>)
    requires |leaves| == 1
    ensures Root(leaves) == leaves[0] && Path(0, leaves) + rest == rest
  {
  }

  /** Inside a complete subtree with more of the tree to its right, the path to
      the subtree's root is climbed bit by bit. */
  lemma {:induction false} ClimbComplete(leaves: seq<Hash>, m: nat, a: nat, s: nat, d: nat, rest: seq<Hash>)
    requires |leaves| == Scale(1, d) && m < |leaves|
    requires Scale(a + 1, d) <= s
    ensures Climb(Scale(a, d) + m, s, leaves[m], Path(m, leaves) + rest) == Climb(a, Halve(s, d), Root(leaves), rest)
    decreases d
  {
    hide Climb, Root, Path, SplitAt;
    if d == 0 {
      OneLeaf(leaves, rest);
    } else {
      hide Scale, Halve;
      CompletePosition(a, s, d);
      var k := Scale(1, d - 1);
      Unfold(leaves, k, m, rest);
      var left, right := leaves[..k], leaves[k..];
      TurnInside(a, Halve(s, d - 1), Root(left), Root(right), rest);
      if m < k {
        assert left[m] == leaves[m];
        ClimbComplete(left, m, 2 * a, s, d - 1, [Root(right)] + rest);
      } else {
        assert right[m - k] == leaves[m];
        ClimbComplete(right, m - k, 2 * a + 1, s, d - 1, [Root(left)] + rest);
      }
    }
  }

  /** The two turns along the right edge: from the left part of a tree, and from
      the right part, which may be shorter by several levels. */
  lemma TurnAtEdge(x: nat, f: nat, left: Hash, right: Hash, rest: seq<Hash>)
    ensures Climb(2 * x, 2 * x + 1, left, [right] + rest) == Climb(x, x, Node(left, right), rest)
    ensures Climb(Scale(2 * x + 1, f), Scale(2 * x + 1, f), right, [left] + rest) ==
            Climb(x, x, Node(left, right), rest)
  {
    var at := Scale(2 * x + 1, f);
    ClimbStep(2 * x, 2 * x + 1, left, right, rest);
    ClimbStep(at, at, right, left, rest);
    assert (2 * x + 1) % 2 == 1 && (2 * x + 1) / 2 == x && (2 * x) % 2 == 0;
    ShiftScaled(2 * x + 1, f);
    assert at == if f == 0 then 2 * x + 1 else 2 * Scale(2 * x + 1, f - 1);
  }

  /** Along the right edge of the tree, where subtrees are not complete, the
      path is climbed to a position that is the subtree's own, up to a shift. */
  lemma {:induction false} ClimbEdge(leaves: seq<Hash>, m: nat, j: nat, d: nat, rest: seq<Hash>) returns (e: nat)
    requires m < |leaves| <= Scale(1, d)
    ensures Climb(Scale(j, d) + m, Scale(j, d) + |leaves| - 1, leaves[m], Path(m, leaves) + rest)
         == Climb(Scale(j, e), Scale(j, e), Root(leaves), rest)
    decreases |leaves|
  {
    hide Climb, Root, Path, Scale, Halve, SplitAt;
    var n := |leaves|;
    if n == 1 {
      OneLeaf(leaves, rest);
      return d;
    }
    var b := SplitIsPower(n);
    var k := SplitAt(n);
    var left, right := leaves[..k], leaves[k..];
    Unfold(leaves, k, m, rest);
    BitsFit(n, b, d);
    e := d - b - 1;
    var x := Scale(j, e);
    EdgePosition(j, d, b, x);
    if m < k {
      assert left[m] == leaves[m];
      HalveScaled(2 * x + 1, n - 1 - k, b);
      ClimbComplete(left, m, 2 * x, Scale(j, d) + n - 1, b, [Root(right)] + rest);
      TurnAtEdge(x, 0, Root(left), Root(right), rest);
    } else {
      assert right[m - k] == leaves[m];
      var f := ClimbEdge(right, m - k, 2 * x + 1, b, [Root(left)] + rest);
      TurnAtEdge(x, f, Root(left), Root(right), rest);
    }
  }

  lemma BitsFit(n: nat, b: nat, d: nat)
    requires Scale(1, b) < n <= Scale(1, d)
    ensures b < d
  {
    hide Scale;
    if d < b { PowersGrow(d, b); }
  }

  /** A subtree's first position, seen from its left part and its right part. */
  lemma EdgePosition(j: nat, d: nat, b: nat, x: nat)
    requires b < d && x == Scale(j, d - b - 1)
    ensures Scale(2 * x, b) == Scale(j, d)
    ensures Scale(2 * x + 1, b) == Scale(j, d) + Scale(1, b)
  {
    assert 2 * x == Scale(j, d - b);
    hide Scale;
    ScaleAgain(j, d - b, b);
    ScaleNext(2 * x, b);
  }

  lemma {:induction false} EnoughBits(n: nat) returns (d: nat)
    ensures n <= Scale(1, d)
  {
    if n == 0 { return 0; }
    d := EnoughBits(n - 1);
    assert Scale(1, d + 1) == 2 * Scale(1, d);
    d := d + 1;
  }

  lemma {:induction false} ScaleZero(d: nat)
    ensures Scale(0, d) == 0
  {
    if d > 0 { ScaleZero(d - 1); }
  }

  /** The path made for a leaf is accepted. */
  lemma PathIsAccepted(leaves: seq<Hash>, m: nat)
    requires m < |leaves|
    ensures Climb(m, |leaves| - 1, leaves[m], Path(m, leaves)) == Some(Root(leaves))
  {
    hide Scale, Climb, Root, Path;
    var d := EnoughBits(|leaves|);
    var e := ClimbEdge(leaves, m, 0, d, []);
    ScaleZero(d);
    ScaleZero(e);
    assert Path(m, leaves) + [] == Path(m, leaves);
    AtTheTop(Root(leaves));
  }

  lemma AtTheTop(r: Hash)
    ensures Climb(0, 0, r, []) == Some(r)
  {
  }

  // ----- and no other path does

  /** The positions alone decide how long a path must be and on which side each
      of its hashes goes, so two paths to one hash are one path. */
  lemma {:induction false} ClimbsAgree(fn: nat, sn: nat, a: Hash, b: Hash, p: seq<Hash>, q: seq<Hash>)
    requires Climb(fn, sn, a, p).Some? && Climb(fn, sn, a, p) == Climb(fn, sn, b, q)
    ensures a == b && p == q
    decreases |p|
  {
    if p != [] && q != [] {
      var (f, s, x) := Turn(fn, sn, a, p[0]);
      var (g, t, y) := Turn(fn, sn, b, q[0]);
      ClimbsAgree(f, s, x, y, p[1..], q[1..]);
      assert p == [p[0]] + p[1..] && q == [q[0]] + q[1..];
    }
  }

  /** A check against the root of a tree passes for the leaf at the index with
      the path made for it, and for nothing else: a record that is not in the
      hour cannot be proven, nor one at another position. */
  lemma VerifyIsExact(leaves: seq<Hash>, m: nat, leaf: Hash, proof: seq<Hash>)
    requires m < |leaves|
    ensures Climb(m, |leaves| - 1, leaf, proof) == Some(Root(leaves)) <==> leaf == leaves[m] && proof == Path(m, leaves)
  {
    PathIsAccepted(leaves, m);
    if Climb(m, |leaves| - 1, leaf, proof) == Some(Root(leaves)) {
      ClimbsAgree(m, |leaves| - 1, leaf, leaves[m], proof, Path(m, leaves));
    }
  }

  // ----- a root is of one sequence of records

  ghost predicate AllLeaves(leaves: seq<Hash>)
  {
    forall i :: 0 <= i < |leaves| ==> leaves[i].Leaf?
  }

  function Leaves(h: Hash): nat
  {
    match h
    case Node(l, r) => Leaves(l) + Leaves(r)
    case Empty => 0
    case _ => 1
  }

  lemma {:induction false} RootCounts(leaves: seq<Hash>)
    requires AllLeaves(leaves)
    ensures Leaves(Root(leaves)) == |leaves|
    decreases |leaves|
  {
    if 1 < |leaves| {
      var k := SplitAt(|leaves|);
      RootCounts(leaves[..k]);
      RootCounts(leaves[k..]);
    }
  }

  /** Equal roots are roots of the same records in the same order. */
  lemma {:induction false} RootBinds(a: seq<Hash>, b: seq<Hash>)
    requires AllLeaves(a) && AllLeaves(b) && Root(a) == Root(b)
    ensures a == b
    decreases |a|
  {
    RootCounts(a);
    RootCounts(b);
    if 1 < |a| {
      var k := SplitAt(|a|);
      RootBinds(a[..k], b[..k]);
      RootBinds(a[k..], b[k..]);
      assert a == a[..k] + a[k..] && b == b[..k] + b[k..];
    }
  }

  // ----- what a root is over

  /** The leaves beneath a hash, from left to right. */
  function Frontier(h: Hash): seq<Hash>
  {
    match h
    case Node(l, r) => Frontier(l) + Frontier(r)
    case Empty => []
    case _ => [h]
  }

  /** A root is over its records in their order. */
  lemma {:induction false} RootIsInOrder(leaves: seq<Hash>)
    requires AllLeaves(leaves)
    ensures Frontier(Root(leaves)) == leaves
    decreases |leaves|
  {
    if |leaves| > 1 {
      var k := SplitAt(|leaves|);
      RootIsInOrder(leaves[..k]);
      RootIsInOrder(leaves[k..]);
      assert leaves == leaves[..k] + leaves[k..];
    }
  }

  /** Leaves divide at the largest power of two below their number. */
  lemma {:induction false} DividesAtAPower(n: nat)
    requires 1 < n
    ensures exists d: nat :: SplitAt(n) == Scale(1, d)
    ensures SplitAt(n) < n <= 2 * SplitAt(n)
  {
    if n == 2 {
      assert SplitAt(n) == Scale(1, 0);
    } else {
      DividesAtAPower((n + 1) / 2);
      var d: nat :| SplitAt((n + 1) / 2) == Scale(1, d);
      assert SplitAt(n) == Scale(1, d + 1);
    }
  }
}
