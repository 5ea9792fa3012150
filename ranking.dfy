/**
 * Line 126 of `main`: `sorted(final_count.items(), key=lambda x: (-x[1], x[0]))`,
 * highest count first and equal counts in ascending word order.
 */
module Ranking {
  import opened Collections
  import opened Counting

  /** One `(word, freq)` item of the ranking. */
  datatype Entry = Entry(word: string, count: nat)

  /** Length of the longest common prefix of `a` and `b`. */
  function CommonPrefix(a: string, b: string): (k: nat)
    ensures k <= |a| && k <= |b| && a[..k] == b[..k]
    ensures k < |a| && k < |b| ==> a[k] != b[k]
    decreases |a|
  {
    if a == [] || b == [] || a[0] != b[0] then 0
    else
      var k := CommonPrefix(a[1..], b[1..]);
      assert a[..k + 1] == [a[0]] + a[1..][..k];
      assert b[..k + 1] == [b[0]] + b[1..][..k];
      k + 1
  }

  /**
   * Python's `<` on `str`: the strings are compared at the first position
   * where they differ, by code point, and when one is a prefix of the other
   * the shorter sorts first.
   */
  function LexLess(a: string, b: string): (r: bool)
    ensures var k := CommonPrefix(a, b); r <==> k < |b| && (k == |a| || a[k] < b[k])
    decreases |a|
  {
    b != [] && (a == [] || a[0] < b[0] || (a[0] == b[0] && LexLess(a[1..], b[1..])))
  }

  lemma {:induction false} LexLessIrreflexive(a: string)
    ensures !LexLess(a, a)
    decreases |a|
  {
    if a != [] {
      LexLessIrreflexive(a[1..]);
    }
  }

  lemma {:induction false} LexLessTransitive(a: string, b: string, c: string)
    requires LexLess(a, b) && LexLess(b, c)
    ensures LexLess(a, c)
    decreases |a|
  {
    if a != [] && a[0] == b[0] && b[0] == c[0] {
      LexLessTransitive(a[1..], b[1..], c[1..]);
    }
  }

  lemma {:induction false} LexLessTotal(a: string, b: string)
    requires a != b
    ensures LexLess(a, b) || LexLess(b, a)
    decreases |a|
  {
    if a != [] && b != [] && a[0] == b[0] {
      assert a == [a[0]] + a[1..] && b == [b[0]] + b[1..];
      LexLessTotal(a[1..], b[1..]);
    }
  }

  /** The sort key `(-count, word)`: `x` sorts before `y`. */
  predicate Before(x: Entry, y: Entry) {
    x.count > y.count || (x.count == y.count && LexLess(x.word, y.word))
  }

  lemma BeforeTransitive(x: Entry, y: Entry, z: Entry)
    requires Before(x, y) && Before(y, z)
    ensures Before(x, z)
  {
    if x.count == y.count == z.count {
      LexLessTransitive(x.word, y.word, z.word);
    }
  }

  lemma BeforeTotal(x: Entry, y: Entry)
    requires x != y
    ensures Before(x, y) || Before(y, x)
  {
    if x.count == y.count {
      LexLessTotal(x.word, y.word);
    }
  }

  /** The sort key is a strict total order on entries, so sorting leaves no tie to chance. */
  lemma BeforeIsStrictTotalOrder()
    ensures forall x :: !Before(x, x)
    ensures forall x, y, z :: Before(x, y) && Before(y, z) ==> Before(x, z)
    ensures forall x, y :: x != y ==> Before(x, y) || Before(y, x)
  {
    forall x
      ensures !Before(x, x)
    {
      LexLessIrreflexive(x.word);
    }
    forall x, y, z | Before(x, y) && Before(y, z)
      ensures Before(x, z)
    {
      BeforeTransitive(x, y, z);
    }
    forall x, y | x != y
      ensures Before(x, y) || Before(y, x)
    {
      BeforeTotal(x, y);
    }
  }

  /** Entry `i` sorts before entry `j` whenever `i < j`. */
  ghost predicate StrictlySorted(s: seq<Entry>) {
    forall i, j :: 0 <= i < j < |s| ==> Before(s[i], s[j])
  }

  /** Puts `e` into a sorted list at its place. */
  function Insert(e: Entry, s: seq<Entry>): (r: seq<Entry>)
    ensures multiset(r) == multiset(s) + multiset{e}
    decreases |s|
  {
    if s == [] then [e]
    else if Before(e, s[0]) then [e] + s
    else
      assert s == [s[0]] + s[1..];
      [s[0]] + Insert(e, s[1..])
  }

  /** An entry that sorts before every entry of a sorted list can go in front. */
  lemma ConsSorted(x: Entry, t: seq<Entry>)
    requires StrictlySorted(t)
    requires forall k :: 0 <= k < |t| ==> Before(x, t[k])
    ensures StrictlySorted([x] + t)
  {
    var r := [x] + t;
    forall i, j | 0 <= i < j < |r|
      ensures Before(r[i], r[j])
    {
      assert r[j] == t[j - 1];
      if i > 0 {
        assert r[i] == t[i - 1];
      }
    }
  }

  lemma TailSorted(s: seq<Entry>)
    requires StrictlySorted(s) && s != []
    ensures StrictlySorted(s[1..])
  {
    var rest := s[1..];
    forall i, j | 0 <= i < j < |rest|
      ensures Before(rest[i], rest[j])
    {
      assert rest[i] == s[i + 1] && rest[j] == s[j + 1];
    }
  }

  /** Inserting a new entry into a strictly sorted list keeps it strictly sorted. */
  lemma {:induction false} InsertSorted(e: Entry, s: seq<Entry>)
    requires StrictlySorted(s) && e !in s
    ensures StrictlySorted(Insert(e, s))
    decreases |s|
  {
    if s == [] {
    } else if Before(e, s[0]) {
      forall k | 0 <= k < |s|
        ensures Before(e, s[k])
      {
        if k > 0 {
          BeforeTransitive(e, s[0], s[k]);
        }
      }
      ConsSorted(e, s);
    } else {
      BeforeTotal(e, s[0]);
      var rest := s[1..];
      TailSorted(s);
      assert e !in rest;
      InsertSorted(e, rest);
      var tail := Insert(e, rest);
      forall k | 0 <= k < |tail|
        ensures Before(s[0], tail[k])
      {
        assert tail[k] in multiset(tail);
        if tail[k] != e {
          assert tail[k] in multiset(rest);
          var m :| 0 <= m < |rest| && rest[m] == tail[k];
          assert rest[m] == s[m + 1];
        }
      }
      ConsSorted(s[0], tail);
    }
  }

  /** `sorted(items, key=(-count, word))`, as an insertion sort. */
  function SortEntries(items: seq<Entry>): (r: seq<Entry>)
    ensures multiset(r) == multiset(items)
    decreases |items|
  {
    if items == [] then []
    else
      assert items == [items[0]] + items[1..];
      Insert(items[0], SortEntries(items[1..]))
  }

  /** Sorting items without repetitions gives a strictly sorted list. */
  lemma {:induction false} SortEntriesSorted(items: seq<Entry>)
    requires Distinct(items)
    ensures StrictlySorted(SortEntries(items))
    decreases |items|
  {
    if items != [] {
      var rest := items[1..];
      assert items == [items[0]] + rest;
      assert Distinct(rest) by {
        forall i, j | 0 <= i < j < |rest|
          ensures rest[i] != rest[j]
        {
          assert rest[i] == items[i + 1] && rest[j] == items[j + 1];
        }
      }
      SortEntriesSorted(rest);
      assert items[0] !in rest;
      assert items[0] !in multiset(SortEntries(rest));
      InsertSorted(items[0], SortEntries(rest));
    }
  }

  /**
   * A strictly sorted list is fixed by its elements: any two strictly sorted
   * orderings of the same items are the same list. Hence the ranking does
   * not depend on the order in which the items were enumerated.
   */
  lemma {:induction false} SortedUnique(a: seq<Entry>, b: seq<Entry>)
    requires StrictlySorted(a) && StrictlySorted(b)
    requires multiset(a) == multiset(b)
    ensures a == b
    decreases |a|
  {
    if a == [] {
      assert |b| == |multiset(b)| == 0;
    } else {
      assert |b| == |multiset(b)| == |a|;
      SameHead(a, b);
      TailSorted(a);
      TailSorted(b);
      assert a == [a[0]] + a[1..] && b == [b[0]] + b[1..];
      assert multiset(a) == multiset{a[0]} + multiset(a[1..]);
      assert multiset(b) == multiset{b[0]} + multiset(b[1..]);
      assert multiset(a[1..]) == multiset(a) - multiset{a[0]};
      assert multiset(b[1..]) == multiset(b) - multiset{b[0]};
      SortedUnique(a[1..], b[1..]);
    }
  }

  /** Two strictly sorted lists of the same entries start with the same entry. */
  lemma SameHead(a: seq<Entry>, b: seq<Entry>)
    requires StrictlySorted(a) && StrictlySorted(b)
    requires multiset(a) == multiset(b) && a != []
    ensures b != [] && a[0] == b[0]
  {
    assert a[0] in multiset(b);
    if a[0] != b[0] {
      assert b[0] in multiset(a);
      var i :| 0 <= i < |a| && a[i] == b[0];
      var j :| 0 <= j < |b| && b[j] == a[0];
      assert Before(a[0], b[0]) && Before(b[0], a[0]);
      BeforeAsymmetric(a[0], b[0]);
    }
  }

  lemma BeforeAsymmetric(x: Entry, y: Entry)
    requires Before(x, y)
    ensures !Before(y, x)
  {
    if Before(y, x) {
      LexLessTransitive(x.word, y.word, x.word);
      LexLessIrreflexive(x.word);
    }
  }

  /** A strictly sorted list has no repeated entries. */
  lemma SortedDistinct(s: seq<Entry>)
    requires StrictlySorted(s)
    ensures Distinct(s)
  {
    BeforeIsStrictTotalOrder();
  }

  /**
   * `final_count.items()`: one entry per key of the table. The dict's
   * iteration order is not modelled; the items come in any order.
   */
  method Items(m: Table) returns (items: seq<Entry>)
    ensures Distinct(items)
    ensures forall e :: e in items <==> e.word in m && e.count == m[e.word]
    ensures |items| == |m|
  {
    items := [];
    var rest := m.Keys;
    while rest != {}
      invariant rest <= m.Keys
      invariant Distinct(items)
      invariant forall e :: e in items <==> e.word in m.Keys - rest && e.count == m[e.word]
      invariant |items| + |rest| == |m.Keys|
      decreases rest
    {
      var w :| w in rest;
      items := items + [Entry(w, m[w])];
      rest := rest - {w};
    }
  }

  /** The distinct words of `words`, in order of first occurrence. */
  function Vocabulary(words: seq<string>): (vs: seq<string>)
    ensures Distinct(vs)
    ensures forall w :: w in vs <==> w in words
    decreases |words|
  {
    if words == [] then []
    else
      var init, last := words[..|words| - 1], words[|words| - 1];
      assert words == init + [last];
      var vs := Vocabulary(init);
      if last in vs then vs else vs + [last]
  }

  /** One entry per word of `keys`, counted in `words`. */
  function Counted(keys: seq<string>, words: seq<string>): seq<Entry> {
    seq(|keys|, i requires 0 <= i < |keys| => Entry(keys[i], multiset(words)[keys[i]]))
  }

  /** One entry per distinct word with its number of occurrences. */
  function Frequencies(words: seq<string>): seq<Entry> {
    Counted(Vocabulary(words), words)
  }

  /** The report's order for a token list, defined without any workers. */
  function Rank(words: seq<string>): seq<Entry> {
    SortEntries(Frequencies(words))
  }

  lemma FrequenciesItems(words: seq<string>)
    ensures Distinct(Frequencies(words))
    ensures forall e :: e in Frequencies(words) <==> e.word in words && e.count == multiset(words)[e.word]
  {
    var vs := Vocabulary(words);
    forall e: Entry | e.word in words && e.count == multiset(words)[e.word]
      ensures e in Frequencies(words)
    {
      var i :| 0 <= i < |vs| && vs[i] == e.word;
      assert Frequencies(words)[i] == e;
    }
  }

  /**
   * The ranking lists every distinct word exactly once with its number of
   * occurrences, highest count first and ties in ascending word order.
   */
  lemma RankSpec(words: seq<string>)
    ensures StrictlySorted(Rank(words))
    ensures forall e :: e in Rank(words) <==> e.word in words && e.count == multiset(words)[e.word]
    ensures forall i, j :: 0 <= i < j < |Rank(words)| ==> Rank(words)[i].word != Rank(words)[j].word
  {
    FrequenciesItems(words);
    SortEntriesSorted(Frequencies(words));
    var r := Rank(words);
    assert forall e :: e in r <==> e in multiset(Frequencies(words));
    SortedDistinct(r);
  }

  /**
   * Sorting the items of a table that holds the occurrence counts of
   * `words` gives `Rank(words)`, whatever order the items came in.
   */
  lemma SortedItems(m: Table, items: seq<Entry>, words: seq<string>)
    requires forall w :: w in m <==> w in words
    requires forall w :: Get(m, w) == multiset(words)[w]
    requires Distinct(items)
    requires forall e :: e in items <==> e.word in m && e.count == m[e.word]
    ensures SortEntries(items) == Rank(words)
  {
    FrequenciesItems(words);
    assert forall e :: e in items <==> e in Frequencies(words) by {
      forall e: Entry
        ensures e in items <==> e in Frequencies(words)
      {
        assert e.word in m ==> m[e.word] == Get(m, e.word);
      }
    }
    DistinctSameElements(items, Frequencies(words));
    SortEntriesSorted(items);
    SortEntriesSorted(Frequencies(words));
    SortedUnique(SortEntries(items), Rank(words));
  }

  /** Sum of the counts of a list of entries. */
  function SumCounts(es: seq<Entry>): nat
    decreases |es|
  {
    if es == [] then 0 else es[0].count + SumCounts(es[1..])
  }

  /** Sum of the occurrence counts in `words` of the words in `keys`. */
  function SumOccurrences(keys: seq<string>, words: seq<string>): nat
    decreases |keys|
  {
    if keys == [] then 0 else multiset(words)[keys[0]] + SumOccurrences(keys[1..], words)
  }

  lemma {:induction false} InsertSum(e: Entry, s: seq<Entry>)
    ensures SumCounts(Insert(e, s)) == SumCounts(s) + e.count
    decreases |s|
  {
    if s != [] && !Before(e, s[0]) {
      InsertSum(e, s[1..]);
    }
  }

  lemma {:induction false} SortSum(items: seq<Entry>)
    ensures SumCounts(SortEntries(items)) == SumCounts(items)
    decreases |items|
  {
    if items != [] {
      SortSum(items[1..]);
      InsertSum(items[0], SortEntries(items[1..]));
    }
  }

  lemma {:induction false} CountedSum(keys: seq<string>, words: seq<string>)
    ensures SumCounts(Counted(keys, words)) == SumOccurrences(keys, words)
    decreases |keys|
  {
    if keys != [] {
      assert Counted(keys, words)[1..] == Counted(keys[1..], words);
      CountedSum(keys[1..], words);
    }
  }

  lemma {:induction false} SumOccurrencesAppend(a: seq<string>, b: seq<string>, words: seq<string>)
    ensures SumOccurrences(a + b, words) == SumOccurrences(a, words) + SumOccurrences(b, words)
    decreases |a|
  {
    if a != [] {
      assert (a + b)[1..] == a[1..] + b;
      SumOccurrencesAppend(a[1..], b, words);
    } else {
      assert a + b == b;
    }
  }

  /** One more token raises the sum over distinct keys by one exactly when the token is a key. */
  lemma {:induction false} SumOccurrencesGrow(keys: seq<string>, words: seq<string>, x: string)
    requires Distinct(keys)
    ensures SumOccurrences(keys, words + [x]) == SumOccurrences(keys, words) + (if x in keys then 1 else 0)
    decreases |keys|
  {
    if keys != [] {
      assert Distinct(keys[1..]);
      assert keys[0] == x ==> x !in keys[1..];
      assert x in keys <==> keys[0] == x || x in keys[1..];
      SumOccurrencesGrow(keys[1..], words, x);
    }
  }

  lemma {:induction false} VocabularySum(words: seq<string>)
    ensures SumOccurrences(Vocabulary(words), words) == |words|
    decreases |words|
  {
    if words != [] {
      var init, last := words[..|words| - 1], words[|words| - 1];
      assert words == init + [last];
      var vs := Vocabulary(init);
      VocabularySum(init);
      SumOccurrencesGrow(vs, init, last);
      if last !in vs {
        SumOccurrencesAppend(vs, [last], words);
        assert SumOccurrences([last], words) == multiset(words)[last];
        assert multiset(init)[last] == 0;
      }
    }
  }

  /** Count conservation: the counts in the ranking add up to the number of tokens. */
  lemma RankTotal(words: seq<string>)
    ensures SumCounts(Rank(words)) == |words|
  {
    SortSum(Frequencies(words));
    CountedSum(Vocabulary(words), words);
    VocabularySum(words);
  }
}
