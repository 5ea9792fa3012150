/**
 * `main(file_path, num_segments)` from the point where the file's text is
 * in hand to the ranked list that is written to `output.txt`.
 */
module Pipeline {
  import opened Collections
  import opened Tokenizer
  import opened Partition
  import opened Counting
  import opened Workers
  import opened Merging
  import opened Ranking

  /** Every worker of a schedule stores its table under a key of the slots. */
  lemma ScheduledSlotsStored(words: seq<string>, n: nat, schedule: seq<nat>)
    requires n > 0 && IsSchedule(schedule, n)
    ensures forall k :: k in schedule ==> k in Slots(Segments(words, n))
  {
  }

  /**
   * Count conservation: whatever order the workers store their tables in, summing the
   * stored tables in that order gives, for every word, its number of
   * occurrences in the whole token list.
   */
  lemma MergedCounts(words: seq<string>, n: nat, schedule: seq<nat>, w: string)
    requires n > 0 && IsSchedule(schedule, n)
    ensures forall k :: k in schedule ==> k in Slots(Segments(words, n))
    ensures SumOf(Pick(Slots(Segments(words, n)), schedule), w) == multiset(words)[w]
  {
    var segments := Segments(words, n);
    ScheduleIsPermutation(schedule, n);
    SlotsInIndexOrder(segments);
    SumIgnoresOrder(Slots(segments), Range(n), schedule, w);
    TalliesSum(segments, w);
    SegmentsCover(words, n);
  }

  /**
   * The table the merge loop builds from the workers' results holds exactly
   * the words of the text, each with its number of occurrences.
   */
  lemma MergedTable(words: seq<string>, n: nat, schedule: seq<nat>, finalCount: Table)
    requires n > 0 && IsSchedule(schedule, n)
    requires forall k :: k in schedule ==> k in Slots(Segments(words, n))
    requires forall w :: Get(finalCount, w) == SumOf(Pick(Slots(Segments(words, n)), schedule), w)
    requires finalCount.Keys == AllKeys(Pick(Slots(Segments(words, n)), schedule))
    ensures forall w :: Get(finalCount, w) == multiset(words)[w]
    ensures forall w :: w in finalCount <==> w in words
  {
    var values := Pick(Slots(Segments(words, n)), schedule);
    forall w
      ensures SumOf(values, w) == multiset(words)[w]
    {
      MergedCounts(words, n, schedule, w);
    }
    SlotsPositive(Segments(words, n), schedule);
    KeysHavePositiveSums(values);
  }

  /**
   * The pipeline for a text already read: split, count every segment in
   * its own worker, merge, and sort. The result is the same for every order
   * in which the workers may store their tables, and equals the ranking of the text's
   * tokens computed without any workers.
   */
  method WordFrequency(text: string, numSegments: int, schedule: seq<nat>) returns (r: Result<seq<Entry>>)
    requires IsSchedule(schedule, if numSegments > 0 then numSegments else 0)
    ensures numSegments == 0 ==> r == Err(ZeroDivisionError)
    ensures numSegments < 0 ==> r == Ok([])
    ensures numSegments > 0 ==> r == Ok(Rank(Split(text)))
  {
    var split := SplitText(text, numSegments);
    if split.Err? {
      return Err(split.error);
    }
    var segments := split.value;
    var results, progress := Dispatch(segments, schedule);
    var values := results.Values();
    var finalCount := Merge(values);
    var items := Items(finalCount);
    var ranked := SortEntries(items);
    if numSegments > 0 {
      var words := Split(text);
      ScheduledSlotsStored(words, numSegments, schedule);
      MergedTable(words, numSegments, schedule, finalCount);
      SortedItems(finalCount, items, words);
    } else {
      assert |segments| == 0;
      ScheduleIsPermutation(schedule, 0);
      assert finalCount == map[];
      assert items == [];
      assert multiset(ranked) == multiset{};
    }
    return Ok(ranked);
  }
}
