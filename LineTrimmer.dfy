/** The prefix keeper (line_trimmer.py): keeps the first lines of a text file
    and writes them back, by default over the input file itself. */
module LineTrimmer {
  import opened Wrappers
  import opened PyText

  /** The number of lines kept. The script's documentation says 500; the limit
      it applies is this one. */
  const MaxLines: nat := 10000

  // ===========================================================================
  // Lines
  // ===========================================================================

  /** The length of the first line of `t`, its newline included. */
  function LineEnd(t: string): (n: nat)
    ensures t != [] ==> 1 <= n <= |t|
    ensures t == [] ==> n == 0
    decreases |t|
  {
    if t == [] then 0
    else if t[0] == '\n' then 1
    else 1 + LineEnd(t[1..])
  }

  /** The first line ends at the first newline, or at the end of the text. */
  lemma {:induction false} LineEndIsFirstNewline(t: string)
    ensures forall k :: 0 <= k < LineEnd(t) - 1 ==> t[k] != '\n'
    ensures LineEnd(t) < |t| ==> t[LineEnd(t) - 1] == '\n'
    decreases |t|
  {
    if t != [] && t[0] != '\n' {
      LineEndIsFirstNewline(t[1..]);
      assert forall k :: 1 <= k < LineEnd(t) - 1 ==> t[k] == t[1..][k - 1];
    }
  }

  /** The lines of a text as iterating over the open file yields them: each
      keeps its newline, and the last one lacks it when the text does not end
      with a newline. */
  function SplitLines(t: string): (lines: seq<string>)
    ensures |lines| <= |t|
    decreases |t|
  {
    if t == [] then []
    else [t[..LineEnd(t)]] + SplitLines(t[LineEnd(t)..])
  }

  /** Writing the lines back one after another gives the text again. */
  lemma {:induction false} ConcatSplitLines(t: string)
    ensures Concat(SplitLines(t)) == t
    decreases |t|
  {
    if t != [] {
      var n := LineEnd(t);
      var rest := SplitLines(t[n..]);
      ConcatSplitLines(t[n..]);
      assert SplitLines(t) == [t[..n]] + rest;
      ConcatCons(t[..n], rest);
      assert t[..n] + t[n..] == t;
    }
  }

  /** Every line is non-empty, and every line but the last ends with a newline
      and has no other. */
  lemma {:induction false} SplitLinesShape(t: string)
    ensures var lines := SplitLines(t);
      forall i :: 0 <= i < |lines| ==>
        && |lines[i]| > 0
        && (forall k :: 0 <= k < |lines[i]| - 1 ==> lines[i][k] != '\n')
        && (i < |lines| - 1 ==> lines[i][|lines[i]| - 1] == '\n')
    decreases |t|
  {
    if t != [] {
      var n := LineEnd(t);
      LineEndIsFirstNewline(t);
      SplitLinesShape(t[n..]);
      var lines := SplitLines(t);
      assert lines[1..] == SplitLines(t[n..]);
      forall i | 1 <= i < |lines|
        ensures lines[i] == SplitLines(t[n..])[i - 1]
      {
      }
    }
  }

  // ===========================================================================
  // Keeping a prefix
  // ===========================================================================

  /** The lines kept from a text: the first `MaxLines` of them, or all of
      them when there are fewer. */
  function KeptLines(t: string): (kept: seq<string>)
    ensures |kept| == Min(|SplitLines(t)|, MaxLines)
    ensures kept == SplitLines(t)[..|kept|]
  {
    var lines := SplitLines(t);
    if |lines| <= MaxLines then lines else lines[..MaxLines]
  }

  /** The file is written where it was read unless another target is given. */
  function Target(inputFile: string, outputFile: Option<string>): string
  {
    if outputFile.Some? then outputFile.value else inputFile
  }

  datatype TrimOutcome =
    | InputNotFound
    | WriteFailed(target: string)
    | Trimmed(target: string, text: string, count: nat)

  /** What the kept text is: a prefix of the input, lines cut whole. */
  lemma KeptIsPrefix(t: string)
    ensures StartsWith(t, Concat(KeptLines(t)))
  {
    ConcatSplitLines(t);
    ConcatPrefix(SplitLines(t), |KeptLines(t)|);
  }

  /** A file of at most `MaxLines` lines is written back unchanged. */
  lemma ShortFileUnchanged(t: string)
    requires |SplitLines(t)| <= MaxLines
    ensures Concat(KeptLines(t)) == t
  {
    ConcatSplitLines(t);
  }

  /** A longer file keeps exactly `MaxLines` lines: the text up to and
      including the newline that ends line `MaxLines`. */
  lemma LongFileCut(t: string)
    requires |SplitLines(t)| > MaxLines
    ensures |KeptLines(t)| == MaxLines
    ensures var kept := Concat(KeptLines(t));
      |kept| < |t| && kept[|kept| - 1] == '\n'
  {
    var lines := SplitLines(t);
    SplitLinesShape(t);
    ConcatSplitLines(t);
    assert lines == lines[..MaxLines] + lines[MaxLines..];
    ConcatAppend(lines[..MaxLines], lines[MaxLines..]);
    assert lines[MaxLines..] == [lines[MaxLines]] + lines[MaxLines + 1..];
    assert Concat(lines[MaxLines..]) == lines[MaxLines] + Concat(lines[MaxLines + 1..]);
    var front := lines[..MaxLines];
    assert front == lines[..MaxLines - 1] + [lines[MaxLines - 1]];
    ConcatAppend(lines[..MaxLines - 1], [lines[MaxLines - 1]]);
    assert Concat([lines[MaxLines - 1]]) == lines[MaxLines - 1] + Concat([]);
  }

  /** `keep_first_500_lines`: `input` is the input file's text, or None when
      it does not exist, and `canWrite` says whether the target can be opened.
      Reads lines until `MaxLines` have been taken, then writes them to the
      target and reports how many there were. */
  method KeepFirst500Lines(inputFile: string, outputFile: Option<string>,
                           input: Option<string>, canWrite: bool)
    returns (outcome: TrimOutcome)
    ensures outcome == if input.None? then InputNotFound
      else if !canWrite then WriteFailed(Target(inputFile, outputFile))
      else Trimmed(Target(inputFile, outputFile), Concat(KeptLines(input.value)),
                   |KeptLines(input.value)|)
  {
    if input.None? {
      return InputNotFound;
    }
    var file := SplitLines(input.value);
    var lines: seq<string> := [];
    var i := 0;
    while i < |file|
      invariant 0 <= i <= |file| && i <= MaxLines
      invariant lines == file[..i]
    {
      if i >= MaxLines {
        break;
      }
      lines := lines + [file[i]];
      i := i + 1;
    }
    assert lines == KeptLines(input.value);
    var target := if outputFile.None? then inputFile else outputFile.value;
    if !canWrite {
      return WriteFailed(target);
    }
    return Trimmed(target, Concat(lines), |lines|);
  }
}
