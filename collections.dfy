/** Generic facts about sequences used by several stages of the pipeline. */
module Collections {

  /** No element occurs twice in `s`. */
  ghost predicate Distinct<T>(s: seq<T>) {
    forall i, j :: 0 <= i < j < |s| ==> s[i] != s[j]
  }

  /** Flattens a sequence of sequences, keeping their order. */
  function Concat<T>(ss: seq<seq<T>>): (r: seq<T>)
    decreases |ss|
  {
    if ss == [] then [] else Concat(ss[..|ss| - 1]) + ss[|ss| - 1]
  }

  /** The indices 0, 1, ..., n-1 in increasing order. */
  function Range(n: nat): (r: seq<nat>)
    ensures |r| == n && forall i :: 0 <= i < n ==> r[i] == i
  {
    seq(n, i requires 0 <= i < n => i)
  }

  /** In a sequence without repetitions every element occurs exactly once. */
  lemma {:induction false} DistinctMultiset<T>(s: seq<T>)
    requires Distinct(s)
    ensures forall x :: multiset(s)[x] == if x in s then 1 else 0
  {
    if s != [] {
      var init := s[..|s| - 1];
      assert s == init + [s[|s| - 1]];
      assert Distinct(init);
      DistinctMultiset(init);
      assert s[|s| - 1] !in init;
    }
  }

  /** Two sequences without repetitions that hold the same elements are permutations of each other. */
  lemma DistinctSameElements<T>(s: seq<T>, u: seq<T>)
    requires Distinct(s) && Distinct(u)
    requires forall x :: x in s <==> x in u
    ensures multiset(s) == multiset(u)
  {
    DistinctMultiset(s);
    DistinctMultiset(u);
  }

  /** Removing the element at position `k` removes one copy of it from the multiset. */
  lemma MultisetWithout<T>(s: seq<T>, k: nat)
    requires k < |s|
    ensures multiset(s[..k] + s[k + 1..]) == multiset(s) - multiset{s[k]}
  {
    assert s == s[..k] + [s[k]] + s[k + 1..];
  }

  /** A sequence without repetitions has as many distinct elements as positions. */
  lemma {:induction false} DistinctSetSize<T>(s: seq<T>, elems: set<T>)
    requires Distinct(s)
    requires forall x :: x in elems <==> x in s
    ensures |elems| == |s|
  {
    if s != [] {
      var init, last := s[..|s| - 1], s[|s| - 1];
      assert s == init + [last];
      assert Distinct(init);
      assert last !in init;
      DistinctSetSize(init, elems - {last});
      assert elems == (elems - {last}) + {last};
    }
  }
}
