/** Readings of one requirement, ordered from the weakest to the strictest:
    `stricter` and the folds of preset/profile.go over it. */
module Strictness {

  /** Where a reading stands in an order; an unknown one is below all. */
  function Rank(order: seq<string>, v: string): (r: int)
    ensures -1 <= r < |order|
    ensures 0 <= r ==> order[r] == v
    ensures r == -1 <==> v !in order
    ensures forall i :: 0 <= i < r ==> order[i] != v
  {
    if order == [] then -1
    else
      assert order == order[..|order| - 1] + [order[|order| - 1]];
      var r := Rank(order[..|order| - 1], v);
      if r >= 0 then r else if order[|order| - 1] == v then |order| - 1 else -1
  }

  /** The same search as it is made, from the weakest up. */
  method RankSearch(order: seq<string>, v: string) returns (r: int)
    ensures r == Rank(order, v)
  {
    for i := 0 to |order|
      invariant forall k :: 0 <= k < i ==> order[k] != v
    {
      if order[i] == v { return i; }
    }
    return -1;
  }

  function Stricter(order: seq<string>, a: string, b: string): string
  {
    if Rank(order, b) > Rank(order, a) then b else if a == "" then b else a
  }

  /** A fold of `Stricter` over the readings so far, none to begin with. */
  function Folded(order: seq<string>, values: seq<string>): string
  {
    if values == [] then "" else Stricter(order, Folded(order, values[..|values| - 1]), values[|values| - 1])
  }

  predicate Known(order: seq<string>, v: string)
  {
    v == "" || v in order
  }

  /** The reading that is at least as strict as each of some, and one of them
      unless they are all silent. */
  ghost predicate Strictest(order: seq<string>, values: set<string>, v: string)
  {
    && (forall x :: x in values ==> Rank(order, x) <= Rank(order, v))
    && (if v == "" then forall x :: x in values ==> x == "" else v in values)
  }

  ghost function Elements(values: seq<string>): set<string>
  {
    set x | x in values
  }

  /** However readings are listed, the fold of them is the strictest. */
  lemma {:induction false} FoldIsStrictest(order: seq<string>, values: seq<string>)
    requires "" !in order
    ensures Strictest(order, Elements(values), Folded(order, values))
  {
    if values != [] {
      var n := |values| - 1;
      var front, b := values[..n], values[n];
      FoldIsStrictest(order, front);
      assert values == front + [b];
      assert Elements(values) == Elements(front) + {b};
      OneMore(order, Elements(front), Folded(order, front), b);
    }
  }

  lemma OneMore(order: seq<string>, values: set<string>, a: string, b: string)
    requires "" !in order && Strictest(order, values, a)
    ensures Strictest(order, values + {b}, Stricter(order, a, b))
  {
    hide Rank;
  }

  /** Known readings have one strictest, so listing them otherwise, or listing
      one again, does not change it. */
  lemma StrictestIsOne(order: seq<string>, values: set<string>, v: string, w: string)
    requires forall x :: x in values ==> Known(order, x)
    requires Strictest(order, values, v) && Strictest(order, values, w)
    ensures v == w
  {
    hide Rank;
    if v != "" && w != "" {
      assert Rank(order, v) == Rank(order, w);
    }
  }

  ghost predicate Distinct(order: seq<string>)
  {
    "" !in order && forall i, j :: 0 <= i < j < |order| ==> order[i] != order[j]
  }

  /** The fold of readings is a known one exactly when it is among them and no
      stricter one is. */
  lemma FoldIsByName(order: seq<string>, values: seq<string>, k: nat)
    requires Distinct(order) && k < |order|
    ensures Folded(order, values) == order[k] <==>
            order[k] in values && forall j :: k < j < |order| ==> order[j] !in values
  {
    hide Folded, Rank;
    FoldIsStrictest(order, values);
    StrictestByName(order, Elements(values), Folded(order, values), k);
    assert forall x :: x in Elements(values) <==> x in values;
  }

  lemma StrictestByName(order: seq<string>, values: set<string>, v: string, k: nat)
    requires Distinct(order) && k < |order| && Strictest(order, values, v)
    ensures v == order[k] <==> order[k] in values && forall j :: k < j < |order| ==> order[j] !in values
  {
    hide Rank;
    forall j | 0 <= j < |order| ensures Rank(order, order[j]) == j && order[j] != "" { RankOf(order, j); }
    assert Rank(order, v) >= 0 ==> order[Rank(order, v)] == v;
  }

  lemma RankOf(order: seq<string>, k: nat)
    requires Distinct(order) && k < |order|
    ensures Rank(order, order[k]) == k && order[k] != ""
  {
    hide Rank;
    assert order[k] in order;
  }

  /** Which of two is listed first matters exactly when they differ and neither
      is a known reading or silence. */
  lemma WhenOrderMatters(order: seq<string>, a: string, b: string)
    requires "" !in order
    ensures Stricter(order, a, b) != Stricter(order, b, a) <==> a != b && !Known(order, a) && !Known(order, b)
  {
    hide Rank;
  }

  // ----- the first text

  /** The first of some texts that says anything. */
  function FirstText(texts: seq<string>): string
  {
    if texts == [] then ""
    else
      var before := FirstText(texts[..|texts| - 1]);
      if before != "" then before else texts[|texts| - 1]
  }

  lemma {:induction false} FirstTextIs(texts: seq<string>)
    ensures FirstText(texts) == "" ==> forall i :: 0 <= i < |texts| ==> texts[i] == ""
    ensures FirstText(texts) != "" ==>
              exists i :: 0 <= i < |texts| && texts[i] == FirstText(texts) && forall j :: 0 <= j < i ==> texts[j] == ""
  {
    if texts != [] {
      var n := |texts| - 1;
      var front := texts[..n];
      FirstTextIs(front);
      assert forall k :: 0 <= k < n ==> front[k] == texts[k];
      if FirstText(front) != "" {
        var i :| 0 <= i < n && front[i] == FirstText(front) && forall j :: 0 <= j < i ==> front[j] == "";
        assert texts[i] == FirstText(texts);
      } else {
        assert texts[n] == FirstText(texts);
      }
    }
  }

  // ----- the earliest close

  /** Zero is no close at all. */
  function Earlier(a: int, b: int): int
  {
    if a == 0 then b else if b == 0 then a else if a < b then a else b
  }

  ghost predicate Earliest(values: set<int>, v: int)
  {
    if v == 0 then forall x :: x in values ==> x == 0
    else v in values && forall x :: x in values && x != 0 ==> v <= x
  }

  lemma OneMoreClose(values: set<int>, a: int, b: int)
    requires Earliest(values, a)
    ensures Earliest(values + {b}, Earlier(a, b))
  {
  }

  lemma EarliestIsOne(values: set<int>, v: int, w: int)
    requires Earliest(values, v) && Earliest(values, w)
    ensures v == w
  {
  }
}
