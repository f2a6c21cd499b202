/** Plain string helpers shared by the PDF field extractor and the report:
    occurrences of a word at a position and the end of the current line. */
module Text {

  /** `word` occurs in `text` starting at index `i`. */
  predicate OccursAt(text: string, word: string, i: int)
  {
    0 <= i && i + |word| <= |text| && text[i..i + |word|] == word
  }

  /** Index of the first newline at or after `k`, or `|text|` if there is none. */
  function LineEnd(text: string, k: nat): (e: nat)
    requires k <= |text|
    ensures k <= e <= |text|
    ensures '\n' !in text[k..e]
    ensures e < |text| ==> text[e] == '\n'
    decreases |text| - k
  {
    if k == |text| || text[k] == '\n' then k
    else
      var e := LineEnd(text, k + 1);
      assert text[k..e] == [text[k]] + text[k + 1..e];
      e
  }

  /** A slice starting at `k` is free of newlines exactly when it stops at
      or before the end of the line that `k` is on. */
  lemma NoNewlineIffWithinLine(text: string, k: nat, j: nat)
    requires k <= j <= |text|
    ensures '\n' !in text[k..j] <==> j <= LineEnd(text, k)
  {
    var e := LineEnd(text, k);
    if j <= e {
      forall m | 0 <= m < j - k
        ensures text[k..j][m] != '\n'
      {
        assert text[k..j][m] == text[k..e][m];
      }
    } else {
      assert text[k..j][e - k] == '\n';
    }
  }

  /** Splits a text into its lines; a final line without a newline is kept. */
  function SplitLines(s: string): seq<string>
    decreases |s|
  {
    if s == [] then []
    else
      var e := LineEnd(s, 0);
      if e == |s| then [s] else [s[..e]] + SplitLines(s[e + 1..])
  }

  /** Splitting a newline-terminated line off the front of a text. */
  lemma SplitFirstLine(line: string, rest: string)
    requires '\n' !in line
    ensures SplitLines(line + "\n" + rest) == [line] + SplitLines(rest)
  {
    var s := line + "\n" + rest;
    var e := LineEnd(s, 0);
    assert s[|line|] == '\n';
    assert s[..|line|] == line;
    NoNewlineIffWithinLine(s, 0, |line|);
    assert e == |line|;
    assert s[..e] == line;
    assert s[e + 1..] == rest;
  }
}
