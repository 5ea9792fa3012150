/**
 * `split_text`: tokenize the text and cut the token list into
 * `num_segments` contiguous slices of `len(words) // num_segments` tokens,
 * the last slice also taking the remainder.
 */
module Partition {
  import opened Collections
  import opened Tokenizer

  /** The one failure `split_text` can raise. */
  datatype Error = ZeroDivisionError

  datatype Result<T> = Ok(value: T) | Err(error: Error)

  /** Start of segment `i`: `i * segment_size`. */
  function SegmentStart(total: nat, n: nat, i: nat): nat
    requires n > 0
  {
    i * (total / n)
  }

  /** End of segment `i`: the next segment's start, or the end of the input for the last one. */
  function SegmentEnd(total: nat, n: nat, i: nat): nat
    requires n > 0
  {
    if i == n - 1 then total else (i + 1) * (total / n)
  }

  lemma MulMono(a: nat, b: nat, c: nat)
    requires a <= b
    ensures a * c <= b * c
  {
  }

  /** Every segment's bounds are ordered and inside the token list. */
  lemma {:induction false} BoundsInRange(total: nat, n: nat, i: nat)
    requires 0 < n && i < n
    ensures SegmentStart(total, n, i) <= SegmentEnd(total, n, i) <= total
  {
    var base := total / n;
    assert n * base <= total;
    MulMono(i, i + 1, base);
    if i < n - 1 {
      MulMono(i + 1, n, base);
      assert (i + 1) * base <= n * base;
    } else {
      MulMono(i, n, base);
      assert i * base <= n * base;
    }
  }

  /** Segment `i` of the partition of `words` into `n` parts: `words[start:end]`. */
  function Segment(words: seq<string>, n: nat, i: nat): (seg: seq<string>)
    requires 0 < n && i < n
  {
    BoundsInRange(|words|, n, i);
    words[SegmentStart(|words|, n, i)..SegmentEnd(|words|, n, i)]
  }

  /** The list `split_text` builds for a positive segment count. */
  function Segments(words: seq<string>, n: nat): (segs: seq<seq<string>>)
    requires n > 0
    ensures |segs| == n
  {
    seq(n, i requires 0 <= i < n => Segment(words, n, i))
  }

  /**
   * `split_text(text, num_segments)`. A zero count fails at the division on
   * line 40; a negative count leaves `range(num_segments)` empty and yields
   * no segments at all.
   */
  method SplitText(text: string, numSegments: int) returns (r: Result<seq<seq<string>>>)
    ensures numSegments == 0 ==> r == Err(ZeroDivisionError)
    ensures numSegments < 0 ==> r == Ok([])
    ensures numSegments > 0 ==> r == Ok(Segments(Split(text), numSegments))
  {
    var words := Split(text);
    if numSegments == 0 {
      return Err(ZeroDivisionError);
    }
    var segments: seq<seq<string>> := [];
    var i := 0;
    while i < numSegments
      invariant 0 <= i && (if numSegments > 0 then i <= numSegments else i == 0)
      invariant |segments| == i
      invariant forall k :: 0 <= k < i ==> segments[k] == Segment(words, numSegments, k)
    {
      var segmentSize := |words| / numSegments;
      var start := i * segmentSize;
      var end := if i == numSegments - 1 then |words| else (i + 1) * segmentSize;
      BoundsInRange(|words|, numSegments, i);
      segments := segments + [words[start..end]];
      i := i + 1;
    }
    if numSegments > 0 {
      assert segments == Segments(words, numSegments);
    }
    return Ok(segments);
  }

  /** Segments laid end to end, up to segment `k`, cover `words[..start of segment k]`. */
  lemma {:induction false} PrefixCoverage(words: seq<string>, n: nat, k: nat)
    requires 0 < n && k <= n - 1
    ensures Concat(Segments(words, n)[..k]) == words[..SegmentStart(|words|, n, k)]
  {
    if k > 0 {
      var segs := Segments(words, n);
      PrefixCoverage(words, n, k - 1);
      assert segs[..k][..k - 1] == segs[..k - 1];
      BoundsInRange(|words|, n, k - 1);
      BoundsInRange(|words|, n, k);
      var a := SegmentStart(|words|, n, k - 1);
      var b := SegmentStart(|words|, n, k);
      assert SegmentEnd(|words|, n, k - 1) == b;
      assert words[..b] == words[..a] + words[a..b];
    }
  }

  /**
   * The segments partition the input: laid end to end they reproduce the
   * token list exactly, so no token is dropped or counted twice.
   */
  lemma {:induction false} SegmentsCover(words: seq<string>, n: nat)
    requires n > 0
    ensures Concat(Segments(words, n)) == words
  {
    var segs := Segments(words, n);
    PrefixCoverage(words, n, n - 1);
    BoundsInRange(|words|, n, n - 1);
    var a := SegmentStart(|words|, n, n - 1);
    assert segs[..n] == segs;
    assert segs[..n][..n - 1] == segs[..n - 1];
    assert words == words[..a] + words[a..];
  }

  /**
   * Every segment but the last has `len(words) // n` tokens; the last takes
   * the remainder, `len(words) - (n-1) * (len(words) // n)`.
   */
  lemma SegmentSizes(words: seq<string>, n: nat, i: nat)
    requires 0 < n && i < n
    ensures i < n - 1 ==> |Segments(words, n)[i]| == |words| / n
    ensures i == n - 1 ==> |Segments(words, n)[i]| == |words| - (n - 1) * (|words| / n)
  {
    BoundsInRange(|words|, n, i);
  }

  /**
   * With more segments than tokens the segment size is zero: every segment
   * but the last is empty and the last holds the whole input.
   */
  lemma MoreSegmentsThanWords(words: seq<string>, n: nat)
    requires n > |words|
    ensures forall i :: 0 <= i < n - 1 ==> Segments(words, n)[i] == []
    ensures Segments(words, n)[n - 1] == words
  {
    assert |words| / n == 0;
  }
}
