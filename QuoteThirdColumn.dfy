/** The third-column quoter (archiveTG_data_rename.py): rewrites the record
    file line by line, wrapping the third field (the file name) in double quotes
    with embedded quotes doubled, in the manner of rules 5-7 of section 2 of
    RFC 4180, and writing every other field raw. */
module QuoteThirdColumn {
  import opened Wrappers
  import opened PyText
  import opened CsvRows

  // ===========================================================================
  // The quoted field
  // ===========================================================================

  /** The content with every double quote doubled. */
  function Escape(s: string): string
    decreases |s|
  {
    if s == [] then [] else EscapeChar(s[0]) + Escape(s[1..])
  }

  function EscapeChar(c: char): string
  {
    if c == '"' then ['"', '"'] else [c]
  }

  /** Text without double quotes is written as it is. */
  lemma {:induction false} EscapeUnquoted(s: string)
    requires '"' !in s
    ensures Escape(s) == s
    decreases |s|
  {
    if s != [] {
      assert '"' !in s[1..];
      EscapeUnquoted(s[1..]);
      assert [s[0]] + s[1..] == s;
    }
  }

  /** The written form of the third field: its escaped content between quotes. */
  function Quote(s: string): string
  {
    "\"" + Escape(s) + "\""
  }

  /** `c` put in front of the content of a field read, if one was read. */
  function Prepend(c: char, read: Option<(string, string)>): Option<(string, string)>
  {
    if read.None? then None else Some(([c] + read.value.0, read.value.1))
  }

  /** Reads escaped content up to the closing quote: a doubled quote stands for
      one quote, a single quote ends the field. Gives the content and what
      follows the closing quote, or None when the field is not closed. */
  function ReadEscaped(t: string): Option<(string, string)>
    decreases |t|
  {
    if t == [] then None
    else if t[0] == '"' then
      if |t| >= 2 && t[1] == '"' then Prepend('"', ReadEscaped(t[2..]))
      else Some(("", t[1..]))
    else Prepend(t[0], ReadEscaped(t[1..]))
  }

  /** Reads a quoted field at the start of `t`. */
  function ReadQuoted(t: string): Option<(string, string)>
  {
    if |t| > 0 && t[0] == '"' then ReadEscaped(t[1..]) else None
  }

  /** One character of content, escaped, is read back as itself. */
  lemma ReadEscapedStep(c: char, u: string)
    ensures ReadEscaped(EscapeChar(c) + u) == Prepend(c, ReadEscaped(u))
  {
    var t := EscapeChar(c) + u;
    if c == '"' {
      assert t[2..] == u;
    } else {
      assert t[1..] == u;
    }
  }

  lemma {:induction false} ReadEscapedOfEscape(s: string, rest: string)
    requires rest == [] || rest[0] != '"'
    ensures ReadEscaped(Escape(s) + (['"'] + rest)) == Some((s, rest))
    decreases |s|
  {
    var closing := ['"'] + rest;
    if s == [] {
      assert Escape(s) + closing == closing;
      ReadEscapedClosing(rest);
    } else {
      ReadEscapedOfEscape(s[1..], rest);
      EscapeFront(s, closing);
      ReadEscapedPrepend(s[0], s[1..], Escape(s[1..]) + closing, rest);
      assert [s[0]] + s[1..] == s;
    }
  }

  /** The inductive step: the escaped first character in front of a field
      that reads back puts that character in front of what is read. */
  lemma ReadEscapedPrepend(c: char, tail: string, u: string, rest: string)
    requires ReadEscaped(u) == Some((tail, rest))
    ensures ReadEscaped(EscapeChar(c) + u) == Some(([c] + tail, rest))
  {
    ReadEscapedStep(c, u);
  }

  lemma EscapeFront(s: string, closing: string)
    requires s != []
    ensures Escape(s) + closing == EscapeChar(s[0]) + (Escape(s[1..]) + closing)
  {
  }

  /** A lone quote closes the field. */
  lemma ReadEscapedClosing(rest: string)
    requires rest == [] || rest[0] != '"'
    ensures ReadEscaped(['"'] + rest) == Some(("", rest))
  {
    assert (['"'] + rest)[1..] == rest;
  }

  /** Un-escaping the written third field gives back its content, and reading
      stops exactly at the closing quote. */
  lemma ReadQuotedOfQuote(s: string, rest: string)
    requires rest == [] || rest[0] != '"'
    ensures ReadQuoted(Quote(s) + rest) == Some((s, rest))
  {
    var t := Quote(s) + rest;
    assert t[1..] == Escape(s) + (['"'] + rest);
    ReadEscapedOfEscape(s, rest);
  }

  // ===========================================================================
  // One line per row
  // ===========================================================================

  /** The line written for a row: with three fields or more, the first two raw,
      the third quoted, and the rest raw after a comma; with fewer, the fields
      joined by commas. */
  function FormatLine(row: Row): string
  {
    if |row| >= 3 then
      row[0] + "," + row[1] + "," + Quote(row[2])
        + (if |row| > 3 then "," + Join(row[3..], ',') else "")
        + "\n"
    else
      Join(row, ',') + "\n"
  }

  function FormatAll(rows: seq<Row>): seq<string>
  {
    seq(|rows|, k requires 0 <= k < |rows| => FormatLine(rows[k]))
  }

  /** Every row, whatever its length, gives one line ending in a newline. */
  lemma FormatLineEnds(row: Row)
    ensures var line := FormatLine(row); |line| > 0 && line[|line| - 1] == '\n'
  {
  }

  /** The text before and after the first comma of `t`, if it has one. */
  function SplitAtComma(t: string): Option<(string, string)>
    decreases |t|
  {
    if t == [] then None
    else if t[0] == ',' then Some(("", t[1..]))
    else
      match SplitAtComma(t[1..])
      case None => None
      case Some(p) => Some(([t[0]] + p.0, p.1))
  }

  lemma {:induction false} SplitAtCommaOf(a: string, b: string)
    requires ',' !in a
    ensures SplitAtComma(a + "," + b) == Some((a, b))
    decreases |a|
  {
    if a == [] {
      assert a + "," + b == "," + b;
    } else {
      SplitAtCommaOf(a[1..], b);
      assert (a + "," + b)[1..] == a[1..] + "," + b;
      assert [a[0]] + a[1..] == a;
    }
  }

  /** Reads a written line of three fields or more back into its fields: two
      raw fields, the quoted one, then raw fields after commas. */
  function ParseLine(line: string): Option<Row>
  {
    if line == [] || line[|line| - 1] != '\n' then None
    else ParseFields(line[..|line| - 1])
  }

  function ParseFields(body: string): Option<Row>
  {
    match SplitAtComma(body)
    case None => None
    case Some(p0) =>
      match SplitAtComma(p0.1)
      case None => None
      case Some(p1) =>
        match ReadQuoted(p1.1)
        case None => None
        case Some(p2) => ParseTail([p0.0, p1.0, p2.0], p2.1)
  }

  /** The raw fields after the quoted one, if any. */
  function ParseTail(fields: Row, more: string): Option<Row>
  {
    if more == [] then Some(fields)
    else if more[0] == ',' then Some(fields + Split(more[1..], ','))
    else None
  }

  lemma ParseFieldsOf(f0: string, f1: string, f2: string, more: string)
    requires ',' !in f0 && ',' !in f1
    requires more == [] || more[0] == ','
    ensures ParseFields(f0 + "," + (f1 + "," + (Quote(f2) + more)))
      == ParseTail([f0, f1, f2], more)
  {
    SplitAtCommaOf(f0, f1 + "," + (Quote(f2) + more));
    SplitAtCommaOf(f1, Quote(f2) + more);
    ReadQuotedOfQuote(f2, more);
  }

  lemma FormatLineBody(row: Row)
    requires |row| >= 3
    ensures var line := FormatLine(row);
      var more := if |row| > 3 then "," + Join(row[3..], ',') else "";
      line != [] && line[|line| - 1] == '\n'
      && line[..|line| - 1] == row[0] + "," + (row[1] + "," + (Quote(row[2]) + more))
  {
  }

  /** A row of three fields or more is read back from its line unchanged, as
      long as the fields written raw contain no comma: only the third field is
      protected by quoting. */
  lemma FormatLineRoundTrip(row: Row)
    requires |row| >= 3
    requires forall k :: 0 <= k < |row| && k != 2 ==> ',' !in row[k]
    ensures ParseLine(FormatLine(row)) == Some(row)
  {
    var more := if |row| > 3 then "," + Join(row[3..], ',') else "";
    FormatLineBody(row);
    assert ',' !in row[0] && ',' !in row[1];
    ParseFieldsOf(row[0], row[1], row[2], more);
    if |row| > 3 {
      var tail := row[3..];
      assert more[1..] == Join(tail, ',');
      assert forall k :: 0 <= k < |tail| ==> tail[k] == row[k + 3];
      SplitJoin(tail, ',');
      assert row == [row[0], row[1], row[2]] + tail;
    } else {
      assert row == [row[0], row[1], row[2]];
    }
  }

  /** The text before the first comma holds no comma. */
  lemma {:induction false} SplitAtCommaHead(t: string)
    ensures SplitAtComma(t).Some? ==> ',' !in SplitAtComma(t).value.0
    decreases |t|
  {
    if t != [] && t[0] != ',' {
      SplitAtCommaHead(t[1..]);
    }
  }

  /** A line that parses has at least three fields, and the first two of them
      are comma-free. */
  lemma ParsedLeadingFields(line: string)
    ensures ParseLine(line).Some? ==>
      var row := ParseLine(line).value;
      |row| >= 3 && ',' !in row[0] && ',' !in row[1]
  {
    if line != [] && line[|line| - 1] == '\n' {
      var body := line[..|line| - 1];
      SplitAtCommaHead(body);
      if SplitAtComma(body).Some? {
        SplitAtCommaHead(SplitAtComma(body).value.1);
      }
    }
  }

  /** The converse of the round trip for the first two fields: a comma in
      either of them is written unprotected, and the row never reads back. */
  lemma CommaInRawFieldBreaksRow(row: Row)
    requires |row| >= 3
    requires ',' in row[0] || ',' in row[1]
    ensures ParseLine(FormatLine(row)) != Some(row)
  {
    ParsedLeadingFields(FormatLine(row));
  }

  /** A row of one or two fields is written as a plain comma join, so without
      commas in its fields it is recovered by splitting the line at commas. */
  lemma ShortRowRoundTrip(row: Row)
    requires 1 <= |row| < 3
    requires forall k :: 0 <= k < |row| ==> ',' !in row[k]
    ensures var line := FormatLine(row); Split(line[..|line| - 1], ',') == row
  {
    var line := FormatLine(row);
    assert line[..|line| - 1] == Join(row, ',');
    SplitJoin(row, ',');
  }

  // ===========================================================================
  // The output file name
  // ===========================================================================

  /** `s.rfind(c)`: the last index of `c` in `s`, or -1. */
  function RFind(s: string, c: char): (r: int)
    ensures -1 <= r < |s|
    ensures r >= 0 ==> s[r] == c
    ensures forall k :: r < k < |s| ==> s[k] != c
    decreases |s|
  {
    if s == [] then -1
    else if s[|s| - 1] == c then |s| - 1
    else RFind(s[..|s| - 1], c)
  }

  /** `os.path.splitext` on POSIX paths: the extension runs from the last dot
      of the last path component, unless everything before that dot in the
      component is dots (a hidden file such as `.bashrc` has no extension). */
  function SplitExt(path: string): (string, string)
  {
    var slash := RFind(path, '/');
    var dot := RFind(path, '.');
    if dot > slash && exists k :: slash < k < dot && path[k] != '.' then
      (path[..dot], path[dot..])
    else
      (path, "")
  }

  /** The root and extension put back together are the path; an extension is
      a dot followed by neither a dot nor a slash. */
  lemma SplitExtParts(path: string)
    ensures SplitExt(path).0 + SplitExt(path).1 == path
    ensures var ext := SplitExt(path).1;
      ext == [] || (ext[0] == '.' && '.' !in ext[1..] && '/' !in ext)
  {
    var slash := RFind(path, '/');
    var dot := RFind(path, '.');
    if dot > slash && exists k :: slash < k < dot && path[k] != '.' {
      var ext := path[dot..];
      assert path[..dot] + ext == path;
      assert forall k :: 1 <= k < |ext| ==> ext[k] == path[dot + k];
      assert forall k :: 0 <= k < |ext| ==> ext[k] == path[dot + k];
    } else {
      assert path + "" == path;
    }
  }

  /** The output file used when none is given: the input's root, then
      `_modified`, then its extension. */
  function DefaultOutputName(inputFile: string): string
  {
    var parts := SplitExt(inputFile);
    parts.0 + "_modified" + parts.1
  }

  function OutputTarget(inputFile: string, outputFile: Option<string>): string
  {
    if outputFile.Some? then outputFile.value else DefaultOutputName(inputFile)
  }

  /** The default output name keeps the input's extension, puts `_modified`
      just before it, and so never names the input file itself. */
  lemma DefaultOutputIsNew(inputFile: string)
    ensures var out := DefaultOutputName(inputFile);
      var ext := SplitExt(inputFile).1;
      && |out| == |inputFile| + 9
      && out[..|inputFile| - |ext|] == inputFile[..|inputFile| - |ext|]
      && out[|out| - |ext|..] == ext
      && out != inputFile
  {
    SplitExtParts(inputFile);
    var parts := SplitExt(inputFile);
    var out := DefaultOutputName(inputFile);
    assert out[..|parts.0|] == parts.0;
    assert out[|out| - |parts.1|..] == parts.1;
  }

  // ===========================================================================
  // The conversion
  // ===========================================================================

  /** The body of the writing loop: builds one row's line. */
  method WriteRow(row: Row) returns (line: string)
    ensures line == FormatLine(row)
  {
    if |row| >= 3 {
      var escaped := Escape(row[2]);
      line := row[0] + "," + row[1] + ",\"" + escaped + "\"";
      if |row| > 3 {
        line := line + "," + Join(row[3..], ',');
      }
      line := line + "\n";
    } else {
      line := Join(row, ',') + "\n";
    }
  }

  datatype QuoteOutcome =
    | InputNotFound
    | WriteFailed
    | Written(lines: seq<string>)

  /** `add_quotes_to_third_column`: `input` is the rows of the input file, or
      None when it does not exist, and `canWrite` says whether the output file
      can be opened. Returns the output file used and what was written there,
      one line per input row in order. */
  method AddQuotesToThirdColumn(inputFile: string, outputFile: Option<string>,
                                input: Option<seq<Row>>, canWrite: bool)
    returns (target: string, outcome: QuoteOutcome)
    ensures target == OutputTarget(inputFile, outputFile)
    ensures outcome == if input.None? then InputNotFound
      else if !canWrite then WriteFailed
      else Written(FormatAll(input.value))
  {
    target := if outputFile.None? then DefaultOutputName(inputFile) else outputFile.value;
    if input.None? {
      return target, InputNotFound;
    }
    var source := input.value;
    var rows: seq<Row> := [];
    var i := 0;
    while i < |source|
      invariant 0 <= i <= |source|
      invariant rows == source[..i]
    {
      rows := rows + [source[i]];
      i := i + 1;
    }
    assert rows == source;
    if !canWrite {
      return target, WriteFailed;
    }
    var lines: seq<string> := [];
    var j := 0;
    while j < |rows|
      invariant 0 <= j <= |rows|
      invariant |lines| == j
      invariant forall k :: 0 <= k < j ==> lines[k] == FormatLine(rows[k])
    {
      var line := WriteRow(rows[j]);
      lines := lines + [line];
      j := j + 1;
    }
    return target, Written(lines);
  }
}
