/** Picking some items out of a list, in order. */
module Picks {

  /** The items whose flags are up. */
  function Pick<T>(flags: seq<bool>, items: seq<T>): seq<T>
    requires |items| == |flags|
  {
    if flags == [] then [] else (if flags[0] then [items[0]] else []) + Pick(flags[1..], items[1..])
  }

  /** How many flags before the k-th are up. */
  function Rank(flags: seq<bool>, k: nat): nat
    requires k <= |flags|
  {
    if k == 0 then 0 else Rank(flags, k - 1) + if flags[k - 1] then 1 else 0
  }

  /** Their positions. */
  function UpBelow(flags: seq<bool>, k: nat): (r: set<nat>)
    requires k <= |flags|
    ensures forall j: nat :: j in r <==> j < k && flags[j]
  {
    if k == 0 then {} else if flags[k - 1] then UpBelow(flags, k - 1) + {k - 1} else UpBelow(flags, k - 1)
  }

  lemma {:induction false} RankIsCount(flags: seq<bool>, k: nat)
    requires k <= |flags|
    ensures Rank(flags, k) == |UpBelow(flags, k)|
  {
    if k > 0 {
      RankIsCount(flags, k - 1);
      assert k - 1 !in UpBelow(flags, k - 1);
    }
  }

  lemma {:induction false} RankTail(flags: seq<bool>, k: nat)
    requires k < |flags|
    ensures Rank(flags, k + 1) == (if flags[0] then 1 else 0) + Rank(flags[1..], k)
  {
    if k > 0 {
      RankTail(flags, k - 1);
    }
  }

  /** The place of a picked item among the picked is the number of those before it. */
  lemma {:induction false} PickAt<T>(flags: seq<bool>, items: seq<T>, k: nat)
    requires |items| == |flags| && k < |flags| && flags[k]
    ensures Rank(flags, k) < |Pick(flags, items)| && Pick(flags, items)[Rank(flags, k)] == items[k]
    decreases |flags|
  {
    if k > 0 {
      RankTail(flags, k - 1);
      PickAt(flags[1..], items[1..], k - 1);
    }
  }

  lemma {:induction false} PickAll<T>(flags: seq<bool>, items: seq<T>)
    requires |items| == |flags|
    ensures |Pick(flags, items)| == Rank(flags, |flags|)
    decreases |flags|
  {
    if flags != [] {
      var n := |flags| - 1;
      RankTail(flags, n);
      PickAll(flags[1..], items[1..]);
      assert |flags[1..]| == n && Rank(flags, n + 1) == Rank(flags, |flags|);
    }
  }

  /** So later ones have later places. */
  lemma {:induction false} RankRises(flags: seq<bool>, j: nat, k: nat)
    requires j < k <= |flags|
    ensures Rank(flags, j) <= Rank(flags, k) && (flags[j] ==> Rank(flags, j) < Rank(flags, k))
    decreases k
  {
    if j < k - 1 {
      RankRises(flags, j, k - 1);
    }
  }

  lemma PickStep<T>(flags: seq<bool>, items: seq<T>, k: nat)
    requires |items| == |flags| && k < |flags|
    ensures Pick(flags[k..], items[k..]) == (if flags[k] then [items[k]] else []) + Pick(flags[k + 1..], items[k + 1..])
  {
    assert flags[k..][1..] == flags[k + 1..] && items[k..][1..] == items[k + 1..];
  }

  /** Where no flag is up nothing is picked. */
  lemma {:induction false} PickNone<T>(flags: seq<bool>, items: seq<T>, a: nat, b: nat)
    requires |items| == |flags| && a <= b <= |flags| && forall k | a <= k < b :: !flags[k]
    ensures Pick(flags[a..], items[a..]) == Pick(flags[b..], items[b..]) && Rank(flags, a) == Rank(flags, b)
    decreases b - a
  {
    if a < b {
      PickStep(flags, items, a);
      PickNone(flags, items, a + 1, b);
    }
  }
}
