/**
 * Lines 125-127 of `main`: the text written to `output.txt`, a fixed header
 * line and then one `f"{word}: {freq}"` line per ranked entry. Writing the
 * file itself is not modelled; the text is.
 */
module Report {
  import opened Tokenizer
  import opened Ranking

  datatype Option<T> = None | Some(value: T)

  const Header: string := "Final consolidated word frequency:"

  function DigitChar(d: nat): char
    requires d < 10
  {
    (('0' as int) + d) as char
  }

  function DigitValue(c: char): nat {
    if '0' <= c <= '9' then (c as int) - ('0' as int) else 0
  }

  /** `str(n)` for a non-negative int: decimal digits without leading zeros. */
  function NatToString(n: nat): (s: string)
    ensures |s| > 0 && forall i :: 0 <= i < |s| ==> '0' <= s[i] <= '9'
    ensures |s| > 1 ==> s[0] != '0'
  {
    if n < 10 then [DigitChar(n)] else NatToString(n / 10) + [DigitChar(n % 10)]
  }

  /** Reads decimal digits back into a number. */
  function ParseNat(s: string): nat
    decreases |s|
  {
    if s == [] then 0 else 10 * ParseNat(s[..|s| - 1]) + DigitValue(s[|s| - 1])
  }

  /** Round trip: the printed count reads back as the same number. */
  lemma {:induction false} ParseNatToString(n: nat)
    ensures ParseNat(NatToString(n)) == n
  {
    if n >= 10 {
      var s := NatToString(n);
      assert s[..|s| - 1] == NatToString(n / 10);
      ParseNatToString(n / 10);
    }
  }

  /** `f"{word}: {freq}"`. */
  function FormatLine(e: Entry): string {
    e.word + ": " + NatToString(e.count)
  }

  /** The lines after the header, each newline-terminated. */
  function Lines(ranked: seq<Entry>): string
    decreases |ranked|
  {
    if ranked == [] then "" else FormatLine(ranked[0]) + "\n" + Lines(ranked[1..])
  }

  /** The whole of `output.txt`. */
  function Output(ranked: seq<Entry>): string {
    Header + "\n" + Lines(ranked)
  }

  /**
   * A report line holds no newline, so the text written has exactly one
   * line per ranked entry after the header.
   */
  lemma LineHasNoNewline(e: Entry)
    requires IsWord(e.word)
    ensures forall k :: 0 <= k < |FormatLine(e)| ==> FormatLine(e)[k] != '\n'
  {
  }

  /** Index of the first `c` in `s`, or `|s|` if there is none. */
  function FirstIndex(s: string, c: char): (i: nat)
    ensures i <= |s| && (i < |s| ==> s[i] == c)
    ensures forall k :: 0 <= k < i ==> s[k] != c
    decreases |s|
  {
    if s == [] || s[0] == c then 0 else 1 + FirstIndex(s[1..], c)
  }

  /** The first `c` is at `i` when `s[i]` is one and nothing before it is. */
  lemma FirstIndexAt(s: string, c: char, i: nat)
    requires i < |s| && s[i] == c
    requires forall k :: 0 <= k < i ==> s[k] != c
    ensures FirstIndex(s, c) == i
  {
  }

  /** Splits a report line at its first space, which must follow a colon. */
  function ParseLine(line: string): Option<Entry> {
    var i := FirstIndex(line, ' ');
    if 1 <= i < |line| && line[i - 1] == ':' then Some(Entry(line[..i - 1], ParseNat(line[i + 1..])))
    else None
  }

  /** In a report line, the first space is the one after the colon. */
  lemma FirstSpaceOfLine(e: Entry)
    requires IsWord(e.word)
    ensures FirstIndex(FormatLine(e), ' ') == |e.word| + 1
  {
    var line := FormatLine(e);
    var n := |e.word|;
    assert line == e.word + (": " + NatToString(e.count));
    forall k | 0 <= k < n + 1
      ensures line[k] != ' '
    {
      if k < n {
        assert line[k] == e.word[k];
        assert !IsSpace(e.word[k]);
      } else {
        assert line[k] == ':';
      }
    }
    assert line[n + 1] == ' ';
    FirstIndexAt(line, ' ', n + 1);
  }

  /**
   * A report line can be read back: because a token holds no whitespace the
   * first space of the line is the one after the colon, so the word and the
   * count are recovered exactly.
   */
  lemma LineRoundTrip(e: Entry)
    requires IsWord(e.word)
    ensures ParseLine(FormatLine(e)) == Some(e)
  {
    var line := FormatLine(e);
    var n := |e.word|;
    FirstSpaceOfLine(e);
    assert line == e.word + (": " + NatToString(e.count));
    assert line[n] == ':';
    assert line[..n] == e.word;
    assert line[n + 2..] == NatToString(e.count);
    ParseNatToString(e.count);
  }

  lemma HeaderHasNoNewline()
    ensures forall k :: 0 <= k < |Header| ==> Header[k] != '\n'
  {
  }

  /** A text read back line by line, each line without its newline. */
  function ReadLines(s: string): seq<string>
    decreases |s|
  {
    if s == [] then []
    else
      var i := FirstIndex(s, '\n');
      if i == |s| then [s] else [s[..i]] + ReadLines(s[i + 1..])
  }

  /** A newline-free line followed by a newline is read back as one line. */
  lemma ReadLine(line: string, rest: string)
    requires forall k :: 0 <= k < |line| ==> line[k] != '\n'
    ensures ReadLines(line + "\n" + rest) == [line] + ReadLines(rest)
  {
    var s := line + "\n" + rest;
    FirstIndexAt(s, '\n', |line|);
    assert s[..|line|] == line;
    assert s[|line| + 1..] == rest;
  }

  /** The entry lines are read back as one line per ranked entry. */
  lemma {:induction false} LinesRead(ranked: seq<Entry>)
    requires forall j :: 0 <= j < |ranked| ==> IsWord(ranked[j].word)
    ensures |ReadLines(Lines(ranked))| == |ranked|
    ensures forall j :: 0 <= j < |ranked| ==> ReadLines(Lines(ranked))[j] == FormatLine(ranked[j])
    decreases |ranked|
  {
    if ranked != [] {
      LineHasNoNewline(ranked[0]);
      ReadLine(FormatLine(ranked[0]), Lines(ranked[1..]));
      LinesRead(ranked[1..]);
    }
  }

  /** `output.txt` reads back as the header line followed by the entry lines. */
  lemma OutputLines(ranked: seq<Entry>)
    ensures ReadLines(Output(ranked)) == [Header] + ReadLines(Lines(ranked))
  {
    HeaderHasNoNewline();
    ReadLine(Header, Lines(ranked));
  }

  /**
   * `output.txt` reads back as the header followed by exactly one line per
   * ranked entry, and each of those lines parses back to its entry.
   */
  lemma OutputRoundTrip(ranked: seq<Entry>)
    requires forall j :: 0 <= j < |ranked| ==> IsWord(ranked[j].word)
    ensures |ReadLines(Output(ranked))| == |ranked| + 1
    ensures ReadLines(Output(ranked))[0] == Header
    ensures forall j :: 0 <= j < |ranked| ==> ParseLine(ReadLines(Output(ranked))[j + 1]) == Some(ranked[j])
  {
    OutputLines(ranked);
    LinesRead(ranked);
    var body := ReadLines(Lines(ranked));
    forall j | 0 <= j < |ranked|
      ensures ParseLine(([Header] + body)[j + 1]) == Some(ranked[j])
    {
      assert ([Header] + body)[j + 1] == body[j] == FormatLine(ranked[j]);
      LineRoundTrip(ranked[j]);
    }
  }
}
