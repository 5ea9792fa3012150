/**
 * `text.split()` with no separator: the text is cut at runs of whitespace,
 * and leading and trailing whitespace produce no empty tokens.
 */
module Tokenizer {
  import opened Collections

  /**
   * The characters `str.split()` treats as whitespace: those CPython's
   * `Py_UNICODE_ISSPACE` accepts (ASCII whitespace, the information
   * separators U+001C..U+001F, NEL, and the Unicode space separators).
   */
  predicate IsSpace(c: char) {
    || c == ' ' || c == '\t' || c == '\n' || c == '\r'
    || c == '\U{B}' || c == '\U{C}'
    || ('\U{1C}' <= c <= '\U{1F}')
    || c == '\U{85}' || c == '\U{A0}' || c == '\U{1680}'
    || ('\U{2000}' <= c <= '\U{200A}')
    || c == '\U{2028}' || c == '\U{2029}' || c == '\U{202F}' || c == '\U{205F}' || c == '\U{3000}'
  }

  /** A token: non-empty and free of whitespace. */
  predicate IsWord(w: string) {
    |w| > 0 && forall i :: 0 <= i < |w| ==> !IsSpace(w[i])
  }

  /** Length of the longest whitespace-free prefix of `s`. */
  function WordLen(s: string): (n: nat)
    ensures n <= |s|
    ensures forall i :: 0 <= i < n ==> !IsSpace(s[i])
    ensures n < |s| ==> IsSpace(s[n])
  {
    if s == [] || IsSpace(s[0]) then 0 else 1 + WordLen(s[1..])
  }

  /** `text.split()`: the maximal whitespace-free runs of `s`, in order. */
  function Split(s: string): (ws: seq<string>)
    ensures forall i :: 0 <= i < |ws| ==> IsWord(ws[i])
    decreases |s|
  {
    if s == [] then []
    else if IsSpace(s[0]) then Split(s[1..])
    else
      var n := WordLen(s);
      [s[..n]] + Split(s[n..])
  }

  /** `s` with every whitespace character removed. */
  function Strip(s: string): (r: string)
    decreases |s|
  {
    if s == [] then [] else (if IsSpace(s[0]) then [] else [s[0]]) + Strip(s[1..])
  }

  /** Tokens separated by single spaces: `" ".join(ws)`. */
  function Join(ws: seq<string>): string
    decreases |ws|
  {
    if ws == [] then "" else if |ws| == 1 then ws[0] else ws[0] + " " + Join(ws[1..])
  }

  lemma {:induction false} StripAppend(a: string, b: string)
    ensures Strip(a + b) == Strip(a) + Strip(b)
    decreases |a|
  {
    if a != [] {
      assert (a + b)[1..] == a[1..] + b;
      StripAppend(a[1..], b);
    } else {
      assert a + b == b;
    }
  }

  lemma {:induction false} StripWord(w: string)
    requires forall i :: 0 <= i < |w| ==> !IsSpace(w[i])
    ensures Strip(w) == w
    decreases |w|
  {
    if w != [] {
      StripWord(w[1..]);
      assert w == [w[0]] + w[1..];
    }
  }

  /**
   * Tokenization keeps every non-whitespace character in input order and
   * drops only whitespace: the tokens laid end to end are the text stripped
   * of its whitespace.
   */
  lemma {:induction false} SplitKeepsOrder(s: string)
    ensures Concat(Split(s)) == Strip(s)
    decreases |s|
  {
    if s == [] {
    } else if IsSpace(s[0]) {
      SplitKeepsOrder(s[1..]);
      ConcatCons(Split(s[1..]), []);
    } else {
      var n := WordLen(s);
      SplitKeepsOrder(s[n..]);
      assert s == s[..n] + s[n..];
      StripAppend(s[..n], s[n..]);
      StripWord(s[..n]);
      ConcatCons(Split(s[n..]), s[..n]);
    }
  }

  /** Concat of a sequence with one more part in front. */
  lemma {:induction false} ConcatCons(ss: seq<string>, w: string)
    ensures Concat([w] + ss) == w + Concat(ss)
    decreases |ss|
  {
    if ss == [] {
      assert Concat([w]) == Concat([]) + w;
    } else {
      var init := ss[..|ss| - 1];
      assert ([w] + ss)[..|ss|] == [w] + init;
      ConcatCons(init, w);
    }
  }

  lemma {:induction false} WordLenOfWord(w: string, rest: string)
    requires IsWord(w)
    requires rest == [] || IsSpace(rest[0])
    ensures WordLen(w + rest) == |w|
    decreases |w|
  {
    var s := w + rest;
    assert s[0] == w[0] && !IsSpace(s[0]);
    if |w| > 1 {
      assert s[1..] == w[1..] + rest;
      assert IsWord(w[1..]) by {
        forall i | 0 <= i < |w[1..]| ensures !IsSpace(w[1..][i]) {
          assert w[1..][i] == w[i + 1];
        }
      }
      WordLenOfWord(w[1..], rest);
    } else {
      assert s[1..] == rest;
    }
  }

  /** A token followed by whitespace or by nothing is split off whole. */
  lemma SplitWordThen(w: string, rest: string)
    requires IsWord(w)
    requires rest == [] || IsSpace(rest[0])
    ensures Split(w + rest) == [w] + Split(rest)
  {
    var s := w + rest;
    WordLenOfWord(w, rest);
    assert s[0] == w[0];
    assert s[..|w|] == w;
    assert s[|w|..] == rest;
  }

  /** Every character of `s` is whitespace. */
  ghost predicate AllSpace(s: string) {
    forall i :: 0 <= i < |s| ==> IsSpace(s[i])
  }

  /** A run of whitespace, however long, produces no token. */
  lemma {:induction false} SplitSpaces(sp: string, rest: string)
    requires AllSpace(sp)
    ensures Split(sp + rest) == Split(rest)
    decreases |sp|
  {
    if sp != [] {
      assert (sp + rest)[0] == sp[0];
      assert (sp + rest)[1..] == sp[1..] + rest;
      assert AllSpace(sp[1..]) by {
        forall i | 0 <= i < |sp[1..]| ensures IsSpace(sp[1..][i]) {
          assert sp[1..][i] == sp[i + 1];
        }
      }
      SplitSpaces(sp[1..], rest);
    } else {
      assert sp + rest == rest;
    }
  }

  /** A token followed by a run of whitespace is split off whole, and the run is dropped. */
  lemma SplitWordRun(w: string, sp: string, rest: string)
    requires IsWord(w) && sp != [] && AllSpace(sp)
    ensures Split(w + sp + rest) == [w] + Split(rest)
  {
    assert w + sp + rest == w + (sp + rest);
    assert (sp + rest)[0] == sp[0];
    SplitWordThen(w, sp + rest);
    SplitSpaces(sp, rest);
  }

  /** Tokens laid out with the separator `seps[i]` after token `ws[i]`. */
  function Spaced(ws: seq<string>, seps: seq<string>): string
    requires |seps| == |ws|
    decreases |ws|
  {
    if ws == [] then "" else ws[0] + seps[0] + Spaced(ws[1..], seps[1..])
  }

  /**
   * `str.split()` with no separator treats every run of whitespace as one
   * separator: tokens laid out with any leading whitespace, any non-empty
   * whitespace runs between them and any trailing whitespace split back into
   * exactly those tokens.
   */
  lemma {:induction false} SplitSpaced(lead: string, ws: seq<string>, seps: seq<string>)
    requires AllSpace(lead) && |seps| == |ws|
    requires forall i :: 0 <= i < |ws| ==> IsWord(ws[i]) && AllSpace(seps[i])
    requires forall i :: 0 <= i < |ws| - 1 ==> seps[i] != []
    ensures Split(lead + Spaced(ws, seps)) == ws
    decreases |ws|
  {
    SplitSpaces(lead, Spaced(ws, seps));
    if ws != [] {
      var w, sep := ws[0], seps[0];
      var rest := Spaced(ws[1..], seps[1..]);
      assert Spaced(ws, seps) == w + (sep + rest);
      SplitSpaced(sep, ws[1..], seps[1..]);
      if sep == [] {
        assert |ws| == 1 && rest == [];
        assert sep + rest == [];
        SplitWordThen(w, []);
        assert w + [] == w;
      } else {
        assert (sep + rest)[0] == sep[0];
        SplitWordThen(w, sep + rest);
      }
      assert ws == [w] + ws[1..];
    }
  }

  /** The separators of `" ".join`: a single space after each token but the last. */
  function JoinSeps(n: nat): (seps: seq<string>)
    ensures |seps| == n
    ensures forall i :: 0 <= i < n ==> AllSpace(seps[i])
    ensures forall i :: 0 <= i < n - 1 ==> seps[i] != []
  {
    seq(n, i requires 0 <= i < n => if i == n - 1 then "" else " ")
  }

  /** `" ".join(ws)` is the layout of `ws` with single-space separators. */
  lemma {:induction false} JoinIsSpaced(ws: seq<string>)
    ensures Join(ws) == Spaced(ws, JoinSeps(|ws|))
    decreases |ws|
  {
    var seps := JoinSeps(|ws|);
    if |ws| == 1 {
      assert Spaced(ws, seps) == ws[0] + "" + Spaced([], []);
    } else if |ws| > 1 {
      assert seps[1..] == JoinSeps(|ws| - 1);
      JoinIsSpaced(ws[1..]);
    }
  }

  /**
   * Round trip: joining tokens with single spaces and splitting again gives
   * back exactly the same tokens; the single-space case of `SplitSpaced`.
   */
  lemma SplitJoin(ws: seq<string>)
    requires forall i :: 0 <= i < |ws| ==> IsWord(ws[i])
    ensures Split(Join(ws)) == ws
  {
    var seps := JoinSeps(|ws|);
    JoinIsSpaced(ws);
    assert AllSpace("");
    SplitSpaced("", ws, seps);
    assert "" + Spaced(ws, seps) == Spaced(ws, seps);
  }
}
