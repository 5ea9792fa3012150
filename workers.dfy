/**
 * The per-segment workers of `main` and `count_words`, run one after the
 * other. The shared `result_dict` and `progress_list` become a `ResultDict`
 * object and an array of 0/1 flags; the order in which the worker processes
 * store their tables (`result_dict[index] = counter`) is the `schedule`
 * parameter of `Dispatch`.
 */
module Workers {
  import opened Collections
  import opened Counting

  /**
   * `result_dict`: segment index to frequency table. Like every Python dict
   * it remembers the order in which its keys were first inserted, and
   * `values()` follows that order.
   */
  class ResultDict {
    var entries: map<nat, Table>
    var order: seq<nat>

    ghost predicate Valid()
      reads this
    {
      Distinct(order) && forall k :: k in entries <==> k in order
    }

    /** `manager.dict()`: an empty dict. */
    constructor ()
      ensures Valid() && entries == map[] && order == []
    {
      entries, order := map[], [];
    }

    /** `result_dict[k] = v`: a new key goes to the end of the order, an old one keeps its place. */
    method Put(k: nat, v: Table)
      requires Valid()
      modifies this
      ensures Valid()
      ensures entries == old(entries)[k := v]
      ensures order == if k in old(entries) then old(order) else old(order) + [k]
    {
      if k !in entries {
        order := order + [k];
      }
      entries := entries[k := v];
    }

    /**
     * `result_dict.values()`: one table per key, in the order the keys were
     * first inserted.
     */
    function Values(): (vs: seq<Table>)
      reads this
      requires Valid()
      ensures |vs| == |order| == |entries|
      ensures forall j :: 0 <= j < |vs| ==> order[j] in entries && vs[j] == entries[order[j]]
    {
      DistinctSetSize(order, entries.Keys);
      Pick(entries, order)
    }
  }

  /** Every flag is 0 (pending) or 1 (done). */
  ghost predicate Flags(flags: seq<int>) {
    forall k :: 0 <= k < |flags| ==> flags[k] == 0 || flags[k] == 1
  }

  /**
   * `sum(progress_list)`: the snapshot the progress observer polls. With 0/1
   * flags it lies between 0 and the number of flags, it is 0 while no flag
   * is set, and it reaches the number of flags exactly when every flag is
   * set, which is when `show_progress` stops polling.
   */
  function Completed(flags: seq<int>): (c: int)
    ensures Flags(flags) ==> 0 <= c <= |flags|
    ensures Flags(flags) ==> (c == |flags| <==> forall k :: 0 <= k < |flags| ==> flags[k] == 1)
    ensures (forall k :: 0 <= k < |flags| ==> flags[k] == 0) ==> c == 0
    decreases |flags|
  {
    if flags == [] then 0
    else
      var init := flags[..|flags| - 1];
      assert forall k :: 0 <= k < |init| ==> init[k] == flags[k];
      Completed(init) + flags[|flags| - 1]
  }

  /**
   * Setting a flag raises the snapshot by one the first time and leaves it
   * alone afterwards, so no update is lost and repeating `set` is harmless.
   */
  lemma {:induction false} FlagSetCount(flags: seq<int>, i: nat)
    requires Flags(flags) && i < |flags|
    ensures Completed(flags[i := 1]) == Completed(flags) + 1 - flags[i]
    decreases |flags|
  {
    var last := |flags| - 1;
    var init, set1 := flags[..last], flags[i := 1];
    assert Completed(flags) == Completed(init) + flags[last];
    assert Completed(set1) == Completed(set1[..last]) + set1[last];
    if i < last {
      assert set1[..last] == init[i := 1];
      assert Flags(init) by {
        forall k | 0 <= k < |init| ensures init[k] == 0 || init[k] == 1 {
          assert init[k] == flags[k];
        }
      }
      FlagSetCount(init, i);
    } else {
      assert set1[..last] == init;
    }
  }

  /**
   * `count_words(segment, index, result_dict, progress_list)`: stores the
   * segment's table in slot `index` and sets flag `index`; nothing else
   * changes.
   */
  method CountWords(segment: seq<string>, index: nat, results: ResultDict, progress: array<int>)
    requires results.Valid() && index < progress.Length
    modifies results, progress
    ensures results.Valid()
    ensures results.entries == old(results.entries)[index := Tally(segment)]
    ensures results.order == if index in old(results.entries) then old(results.order) else old(results.order) + [index]
    ensures progress[..] == old(progress[..])[index := 1]
  {
    var counter := Tally(segment);
    results.Put(index, counter);
    progress[index] := 1;
  }

  /** Flags of `n` workers of which those in `done` have finished. */
  function Marks(n: nat, done: seq<nat>): (flags: seq<int>)
    ensures |flags| == n && Flags(flags)
  {
    seq(n, k requires 0 <= k < n => if k in done then 1 else 0)
  }

  lemma MarkOne(n: nat, done: seq<nat>, i: nat)
    requires i < n
    ensures Marks(n, done)[i := 1] == Marks(n, done + [i])
  {
    assert forall k :: 0 <= k < n ==> (k in done + [i] <==> k in done || k == i);
  }

  /** `result_dict` once every worker has finished: slot `i` holds segment `i`'s table. */
  function Slots(segments: seq<seq<string>>): (slots: map<nat, Table>)
    ensures forall i: nat :: i in slots <==> i < |segments|
  {
    map i: nat | i < |segments| :: Tally(segments[i])
  }

  /** The slots read in index order are the per-segment tables. */
  lemma SlotsInIndexOrder(segments: seq<seq<string>>)
    ensures forall k :: k in Range(|segments|) ==> k in Slots(segments)
    ensures Pick(Slots(segments), Range(|segments|)) == Tallies(segments)
  {
  }

  /** No stored table holds a zero count. */
  lemma SlotsPositive(segments: seq<seq<string>>, keys: seq<nat>)
    requires forall k :: k in keys ==> k in Slots(segments)
    ensures forall j :: 0 <= j < |keys| ==> Positive(Pick(Slots(segments), keys)[j])
  {
    forall j | 0 <= j < |keys|
      ensures Positive(Pick(Slots(segments), keys)[j])
    {
      assert keys[j] in keys;
      var seg := segments[keys[j]];
      assert Pick(Slots(segments), keys)[j] == Tally(seg);
      forall w | w in Tally(seg)
        ensures Tally(seg)[w] > 0
      {
        assert Get(Tally(seg), w) == multiset(seg)[w];
      }
    }
  }

  /** The slots of `result_dict` filled once the workers in `done` have finished. */
  function Stored(segments: seq<seq<string>>, done: seq<nat>): map<nat, Table>
  {
    map i: nat | i in done && i < |segments| :: Tally(segments[i])
  }

  lemma StoreOne(segments: seq<seq<string>>, done: seq<nat>, i: nat)
    requires i < |segments|
    ensures Stored(segments, done)[i := Tally(segments[i])] == Stored(segments, done + [i])
  {
    assert forall k :: k in done + [i] <==> k in done || k == i;
  }

  /** `s` lists each index below `n` exactly once. */
  ghost predicate IsSchedule(s: seq<nat>, n: nat) {
    Distinct(s) && forall x :: x in s <==> x < n
  }

  /** A schedule of `n` workers is a reordering of the indices `0..n-1`. */
  lemma ScheduleIsPermutation(s: seq<nat>, n: nat)
    requires IsSchedule(s, n)
    ensures multiset(s) == multiset(Range(n)) && |s| == n
  {
    var r := Range(n);
    assert Distinct(r);
    forall x: nat
      ensures x in s <==> x in r
    {
      if x < n {
        assert r[x] == x;
      }
    }
    DistinctSameElements(s, r);
    assert |multiset(s)| == |multiset(r)|;
  }

  /** The worker at position `j` of a schedule exists and has not run before it. */
  lemma NextWorker(schedule: seq<nat>, n: nat, j: nat)
    requires IsSchedule(schedule, n) && j < |schedule|
    ensures schedule[j] < n && schedule[j] !in schedule[..j]
    ensures schedule[..j + 1] == schedule[..j] + [schedule[j]]
  {
    assert schedule[j] in schedule;
  }

  /**
   * The shared state once the workers in `done` have finished, in that
   * order: their slots are filled, the dict's insertion order is `done`,
   * their flags are set and the snapshot counts them.
   */
  ghost predicate Progressed(segments: seq<seq<string>>, done: seq<nat>, results: ResultDict, progress: array<int>)
    reads results, progress
  {
    && results.Valid()
    && results.entries == Stored(segments, done)
    && results.order == done
    && progress.Length == |segments|
    && progress[..] == Marks(|segments|, done)
    && Completed(progress[..]) == |done|
  }

  /** One worker, `count_words(segments[i], i, ...)`, finishes. */
  method RunWorker(segments: seq<seq<string>>, ghost done: seq<nat>, i: nat, results: ResultDict, progress: array<int>)
    requires i < |segments| && i !in done
    requires Progressed(segments, done, results, progress)
    modifies results, progress
    ensures Progressed(segments, done + [i], results, progress)
  {
    ghost var before := progress[..];
    assert before[i] == 0;
    CountWords(segments[i], i, results, progress);
    assert progress[..] == before[i := 1];
    FlagSetCount(before, i);
    MarkOne(|segments|, done, i);
    StoreOne(segments, done, i);
  }

  /** The workers of `schedule` finish one after the other. */
  method RunAll(segments: seq<seq<string>>, schedule: seq<nat>, results: ResultDict, progress: array<int>)
    requires IsSchedule(schedule, |segments|)
    requires Progressed(segments, [], results, progress)
    modifies results, progress
    ensures Progressed(segments, schedule, results, progress)
  {
    var j := 0;
    while j < |schedule|
      invariant j <= |schedule|
      invariant Progressed(segments, schedule[..j], results, progress)
    {
      var i := schedule[j];
      NextWorker(schedule, |segments|, j);
      RunWorker(segments, schedule[..j], i, results, progress);
      j := j + 1;
    }
    assert schedule[..j] == schedule;
  }

  /**
   * Lines 99-116 of `main`: one worker per segment. The workers run in the
   * order `schedule` gives, standing for the order in which the processes
   * happen to store their tables. Afterwards slot `i` holds segment `i`'s
   * table, the dict's insertion order is that storing order, every flag is
   * set and the snapshot equals the number of segments.
   */
  method Dispatch(segments: seq<seq<string>>, schedule: seq<nat>) returns (results: ResultDict, progress: array<int>)
    requires IsSchedule(schedule, |segments|)
    ensures fresh(results) && fresh(progress) && results.Valid()
    ensures results.entries == Slots(segments)
    ensures results.order == schedule
    ensures progress.Length == |segments| && forall k :: 0 <= k < progress.Length ==> progress[k] == 1
    ensures Completed(progress[..]) == |segments|
  {
    results := new ResultDict();
    assert Stored(segments, []) == map[];
    progress := new int[|segments|](_ => 0);
    assert progress[..] == Marks(|segments|, []);
    RunAll(segments, schedule, results, progress);
    AllFinished(segments, schedule);
    assert forall k :: 0 <= k < progress.Length ==> progress[k] == Marks(|segments|, schedule)[k];
  }

  /** Once every worker of a schedule has finished, every slot is filled and every flag set. */
  lemma AllFinished(segments: seq<seq<string>>, schedule: seq<nat>)
    requires IsSchedule(schedule, |segments|)
    ensures Stored(segments, schedule) == Slots(segments)
    ensures forall k :: 0 <= k < |segments| ==> Marks(|segments|, schedule)[k] == 1
    ensures |schedule| == |segments|
  {
    ScheduleIsPermutation(schedule, |segments|);
  }
}
