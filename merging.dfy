/**
 * Lines 119-121 of `main`: `final_count` starts as an empty Counter and is
 * `update`d with every table in `result_dict.values()`.
 */
module Merging {
  import opened Collections
  import opened Counting

  /** The words that are a key of at least one of the tables. */
  function AllKeys(tables: seq<Table>): set<string>
    decreases |tables|
  {
    if tables == [] then {} else AllKeys(tables[..|tables| - 1]) + tables[|tables| - 1].Keys
  }

  /**
   * The merge loop: the merged count of every word is its sum over the
   * tables, and the merged keys are the keys of the tables.
   */
  method Merge(values: seq<Table>) returns (finalCount: Table)
    ensures forall w :: Get(finalCount, w) == SumOf(values, w)
    ensures finalCount.Keys == AllKeys(values)
  {
    finalCount := map[];
    for j := 0 to |values|
      invariant forall w :: Get(finalCount, w) == SumOf(values[..j], w)
      invariant finalCount.Keys == AllKeys(values[..j])
    {
      assert values[..j + 1][..j] == values[..j];
      finalCount := Update(finalCount, values[j]);
    }
    assert values[..|values|] == values;
  }

  /** When no table stores a zero, a word is a key of some table exactly when its sum is positive. */
  lemma {:induction false} KeysHavePositiveSums(tables: seq<Table>)
    requires forall j :: 0 <= j < |tables| ==> Positive(tables[j])
    ensures forall w :: w in AllKeys(tables) <==> SumOf(tables, w) > 0
    decreases |tables|
  {
    if tables != [] {
      var init := tables[..|tables| - 1];
      KeysHavePositiveSums(init);
      assert Positive(tables[|tables| - 1]);
    }
  }

  /** Taking the table at position `k` out of the picked list lowers the sum by that table's count. */
  lemma SumWithout(t: map<nat, Table>, b: seq<nat>, k: nat, w: string)
    requires forall x :: x in b ==> x in t
    requires k < |b|
    ensures SumOf(Pick(t, b), w) == SumOf(Pick(t, b[..k] + b[k + 1..]), w) + Get(t[b[k]], w)
  {
    var single: seq<Table> := [t[b[k]]];
    assert single[..0] == [];
    var left, right := Pick(t, b[..k]), Pick(t, b[k + 1..]);
    assert Pick(t, b) == left + single + right;
    assert Pick(t, b[..k] + b[k + 1..]) == left + right;
    SumOfAppend(left + single, right, w);
    SumOfAppend(left, single, w);
    SumOfAppend(left, right, w);
  }

  /** Reordering a list of keys keeps every key stored. */
  lemma PermutedKeysStored(t: map<nat, Table>, a: seq<nat>, b: seq<nat>)
    requires forall k :: k in a ==> k in t
    requires multiset(a) == multiset(b)
    ensures forall k :: k in b ==> k in t
  {
    forall k | k in b
      ensures k in t
    {
      assert k in multiset(b);
    }
  }

  /** Where the last key of `a` sits in its reordering `b`, and what is left once both are removed. */
  lemma MatchLast(a: seq<nat>, b: seq<nat>) returns (k: nat)
    requires a != [] && multiset(a) == multiset(b)
    ensures k < |b| && b[k] == a[|a| - 1]
    ensures multiset(a[..|a| - 1]) == multiset(b[..k] + b[k + 1..])
  {
    var x := a[|a| - 1];
    assert a == a[..|a| - 1] + [x];
    assert x in multiset(b);
    k :| 0 <= k < |b| && b[k] == x;
    MultisetWithout(b, k);
  }

  /**
   * The merge does not depend on the order of `result_dict.values()`: the
   * sum over the tables stored under the keys `a` is the same for every
   * reordering `b` of those keys.
   */
  lemma {:induction false} SumIgnoresOrder(t: map<nat, Table>, a: seq<nat>, b: seq<nat>, w: string)
    requires forall k :: k in a ==> k in t
    requires multiset(a) == multiset(b)
    ensures forall k :: k in b ==> k in t
    ensures SumOf(Pick(t, a), w) == SumOf(Pick(t, b), w)
    decreases |a|
  {
    PermutedKeysStored(t, a, b);
    if a == [] {
      assert |b| == |multiset(b)| == 0;
    } else {
      var a' := a[..|a| - 1];
      var k := MatchLast(a, b);
      SumIgnoresOrder(t, a', b[..k] + b[k + 1..], w);
      assert Pick(t, a)[..|a| - 1] == Pick(t, a');
      SumWithout(t, b, k, w);
    }
  }
}
