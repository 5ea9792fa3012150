/**
 * Frequency tables: `collections.Counter` restricted to what the pipeline
 * uses, namely building one from a list of tokens and `update`-ing one with
 * another.
 */
module Counting {
  import opened Collections

  /** A frequency table: token to count. Only tokens that were seen are keys. */
  type Table = map<string, nat>

  /** `counter[w]`: a missing key reads as 0. */
  function Get(t: Table, w: string): nat {
    if w in t then t[w] else 0
  }

  /** `Counter(segment)`: tallies the tokens one by one. */
  function Tally(segment: seq<string>): (t: Table)
    ensures forall w :: Get(t, w) == multiset(segment)[w]
    ensures forall w :: w in t <==> w in segment
    decreases |segment|
  {
    if segment == [] then map[]
    else
      var init, last := segment[..|segment| - 1], segment[|segment| - 1];
      assert segment == init + [last];
      var t := Tally(init);
      t[last := Get(t, last) + 1]
  }

  /** Every stored count is positive, as in a table `Counter(segment)` builds. */
  ghost predicate Positive(t: Table) {
    forall w :: w in t ==> t[w] > 0
  }

  /** `a.update(b)` for a Counter `b`: adds `b`'s counts to `a`'s, key by key. */
  function Update(a: Table, b: Table): (r: Table)
    ensures r.Keys == a.Keys + b.Keys
    ensures forall w :: Get(r, w) == Get(a, w) + Get(b, w)
  {
    map w | w in a.Keys + b.Keys :: Get(a, w) + Get(b, w)
  }

  /** Merging is commutative: the order of two updates does not matter. */
  lemma UpdateCommutes(a: Table, b: Table)
    ensures Update(a, b) == Update(b, a)
  {
  }

  /** Merging is associative. */
  lemma UpdateAssociates(a: Table, b: Table, c: Table)
    ensures Update(Update(a, b), c) == Update(a, Update(b, c))
  {
  }

  /** The tables stored under `keys`, in the order of `keys`. */
  function Pick(t: map<nat, Table>, keys: seq<nat>): (ts: seq<Table>)
    requires forall k :: k in keys ==> k in t
  {
    seq(|keys|, j requires 0 <= j < |keys| => t[keys[j]])
  }

  /** Sum of the counts of `w` over a list of tables. */
  function SumOf(tables: seq<Table>, w: string): nat
    decreases |tables|
  {
    if tables == [] then 0 else SumOf(tables[..|tables| - 1], w) + Get(tables[|tables| - 1], w)
  }

  /** The sum over two lists laid end to end is the sum of the two sums. */
  lemma {:induction false} SumOfAppend(s: seq<Table>, u: seq<Table>, w: string)
    ensures SumOf(s + u, w) == SumOf(s, w) + SumOf(u, w)
    decreases |u|
  {
    if u == [] {
      assert s + u == s;
    } else {
      var init := u[..|u| - 1];
      assert (s + u)[..|s + u| - 1] == s + init;
      SumOfAppend(s, init, w);
    }
  }

  /** One table per segment, in segment order. */
  function Tallies(segments: seq<seq<string>>): (ts: seq<Table>)
    ensures |ts| == |segments|
  {
    seq(|segments|, i requires 0 <= i < |segments| => Tally(segments[i]))
  }

  /**
   * Counting per segment and summing loses and invents nothing: the sum of
   * the per-segment counts of `w` is the number of occurrences of `w` in
   * the segments laid end to end.
   */
  lemma {:induction false} TalliesSum(segments: seq<seq<string>>, w: string)
    ensures SumOf(Tallies(segments), w) == multiset(Concat(segments))[w]
    decreases |segments|
  {
    if segments != [] {
      var init, last := segments[..|segments| - 1], segments[|segments| - 1];
      var ts := Tallies(segments);
      assert ts[..|segments| - 1] == Tallies(init);
      assert ts[|segments| - 1] == Tally(last);
      assert SumOf(ts, w) == SumOf(Tallies(init), w) + Get(Tally(last), w);
      TalliesSum(init, w);
      assert Concat(segments) == Concat(init) + last;
      assert multiset(Concat(segments)) == multiset(Concat(init)) + multiset(last);
    }
  }
}
