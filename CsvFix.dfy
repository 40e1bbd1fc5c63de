/** The record-file normaliser (csvFix.py): keeps the data rows of an old
    record file, cleans stray whitespace and quotes from every field, and writes
    them back under the standard header with exactly four columns each. */
module CsvFix {
  import opened Wrappers
  import opened PyText
  import opened CsvRows

  const Columns: nat := 4
  /** The value a missing column is filled with. */
  const Filler: string := "Unknown"
  /** A first row whose first field contains this (ignoring ASCII case) is a header. */
  const HeaderMarker: string := "numerical_file_id"

  /** The first input row is data when it is not empty and its first field,
      lower-cased, does not contain the header marker. */
  predicate FirstRowIsData(row: Row)
  {
    |row| > 0 && !Contains(Lower(row[0]), HeaderMarker)
  }

  /** The later rows that have all four required columns, in file order. */
  function KeptRows(rows: seq<Row>): seq<Row>
    decreases |rows|
  {
    if rows == [] then []
    else
      var last := rows[|rows| - 1];
      KeptRows(rows[..|rows| - 1]) + (if |last| >= Columns then [last] else [])
  }

  /** The rows the normaliser writes out: the first row when it is data, then
      every later row with at least four fields. */
  function SelectRows(input: seq<Row>): seq<Row>
  {
    if input == [] then []
    else (if FirstRowIsData(input[0]) then [input[0]] else []) + KeptRows(input[1..])
  }

  lemma KeptRowsSnoc(rows: seq<Row>, row: Row)
    ensures KeptRows(rows + [row]) == KeptRows(rows) + (if |row| >= Columns then [row] else [])
  {
    assert (rows + [row])[..|rows|] == rows;
  }

  /** A row is kept exactly when it has at least four fields. */
  lemma {:induction false} KeptRowsMembers(rows: seq<Row>, row: Row)
    ensures row in KeptRows(rows) <==> row in rows && |row| >= Columns
  {
    if rows != [] {
      var p := rows[..|rows| - 1];
      KeptRowsMembers(p, row);
      assert rows == p + [rows[|rows| - 1]];
    }
  }

  /** Filtering keeps relative order: it distributes over concatenation. */
  lemma {:induction false} KeptRowsAppend(a: seq<Row>, b: seq<Row>)
    ensures KeptRows(a + b) == KeptRows(a) + KeptRows(b)
    decreases |b|
  {
    if b == [] {
      assert a + b == a;
    } else {
      var p := b[..|b| - 1];
      KeptRowsAppend(a, p);
      assert (a + b)[..|a + b| - 1] == a + p;
    }
  }

  /** The characters the three strips remove: whitespace, double and single quotes. */
  const Stripped: set<char> := PyWhitespace + {'"'} + {'\''}

  /** A field with whitespace, then double quotes, then single quotes stripped
      from both ends. */
  function CleanField(f: string): string
  {
    Strip(Strip(Strip(f, PyWhitespace), {'"'}), {'\''})
  }

  /** A cleaned field never starts or ends with a single quote, and a field
      without whitespace or quotes at its ends is left as it is. */
  lemma CleanFieldEnds(f: string)
    ensures var r := CleanField(f); r == [] || (r[0] != '\'' && r[|r| - 1] != '\'')
    ensures (f == [] || (f[0] !in Stripped && f[|f| - 1] !in Stripped)) ==> CleanField(f) == f
  {
    if f == [] || (f[0] !in Stripped && f[|f| - 1] !in Stripped) {
      CleanFieldUnchanged(f);
    }
  }

  lemma CleanFieldUnchanged(f: string)
    requires f == [] || (f[0] !in Stripped && f[|f| - 1] !in Stripped)
    ensures CleanField(f) == f
  {
    if f != [] {
      assert f[0] !in PyWhitespace && f[|f| - 1] !in PyWhitespace;
      assert f[0] != '"' && f[|f| - 1] != '"';
      assert f[0] != '\'' && f[|f| - 1] != '\'';
    }
    var a := Strip(f, PyWhitespace);
    assert a == f;
    var b := Strip(a, {'"'});
    assert b == f;
  }

  /** What cleaning keeps is a contiguous piece of the field: it removes only
      characters of `Stripped`, and only at the two ends. */
  lemma CleanFieldKeepsMiddle(f: string)
    ensures TrimOf(f, CleanField(f), Stripped)
  {
    var a := Strip(f, PyWhitespace);
    var b := Strip(a, {'"'});
    StripKeepsMiddle(f, PyWhitespace);
    StripKeepsMiddle(a, {'"'});
    StripKeepsMiddle(b, {'\''});
    TrimOfTrans(f, a, b, PyWhitespace, {'"'});
    TrimOfTrans(f, b, CleanField(f), PyWhitespace + {'"'}, {'\''});
  }

  /** Appends the filler until the row has four fields. */
  function Pad(row: Row): (r: Row)
    ensures |r| == if |row| < Columns then Columns else |row|
    ensures r[..|row|] == row
    ensures forall k :: |row| <= k < |r| ==> r[k] == Filler
    decreases Columns - |row|
  {
    if |row| < Columns then Pad(row + [Filler]) else row
  }

  function CleanAll(row: Row): (r: Row)
    ensures |r| == |row| && forall k :: 0 <= k < |row| ==> r[k] == CleanField(row[k])
  {
    seq(|row|, k requires 0 <= k < |row| => CleanField(row[k]))
  }

  /** The first four fields after padding: exactly four fields, the row's own first, the
      filler after them. */
  function FitColumns(row: Row): (r: Row)
    ensures |r| == Columns
    ensures forall k :: 0 <= k < Columns ==> r[k] == if k < |row| then row[k] else Filler
  {
    var padded := Pad(row);
    forall k | 0 <= k < |row| && k < Columns
      ensures padded[k] == row[k]
    {
      assert padded[..|row|][k] == padded[k];
    }
    padded[..Columns]
  }

  /** The row written for a kept row: exactly four fields, the cleaned input
      fields first and the filler after them. */
  function NormalizeRow(row: Row): (r: Row)
    ensures |r| == Columns
    ensures forall k :: 0 <= k < Columns ==>
      r[k] == if k < |row| then CleanField(row[k]) else Filler
  {
    FitColumns(CleanAll(row))
  }

  function NormalizeAll(rows: seq<Row>): seq<Row>
  {
    seq(|rows|, k requires 0 <= k < |rows| => NormalizeRow(rows[k]))
  }

  /** The whole output file of a successful conversion. */
  function Converted(input: seq<Row>): seq<Row>
  {
    [Header] + NormalizeAll(SelectRows(input))
  }

  /** The output starts with the standard header, then one four-field row per
      selected row in the same order. */
  lemma ConvertedShape(input: seq<Row>)
    ensures var out := Converted(input);
      && out[0] == Header
      && |out| == |SelectRows(input)| + 1
      && out[1..] == NormalizeAll(SelectRows(input))
      && forall row :: row in out[1..] ==> |row| == Columns
  {
    var data := SelectRows(input);
    assert Converted(input)[1..] == NormalizeAll(data);
  }

  /** Which rows survive: the first exactly when it is data, whatever its length;
      a later row exactly when it has four fields or more. */
  lemma SelectRowsMembers(input: seq<Row>, row: Row)
    requires |input| > 0
    ensures row in SelectRows(input) <==>
      (row == input[0] && FirstRowIsData(row)) || (row in input[1..] && |row| >= Columns)
    ensures |SelectRows(input)| > 0 && FirstRowIsData(input[0]) ==> SelectRows(input)[0] == input[0]
  {
    KeptRowsMembers(input[1..], row);
  }

  /** The reading half of `convert_csv_for_cloudflare`: collects the rows to
      keep in file order. */
  method SelectData(rows: seq<Row>) returns (data: seq<Row>)
    ensures data == SelectRows(rows)
  {
    data := [];
    if |rows| > 0 {
      var first := rows[0];
      if FirstRowIsData(first) {
        data := data + [first];
      }
      var head := data;
      var rest := rows[1..];
      var i := 0;
      while i < |rest|
        invariant 0 <= i <= |rest|
        invariant data == head + KeptRows(rest[..i])
      {
        var row := rest[i];
        assert rest[..i + 1] == rest[..i] + [row];
        SelectStep(head, rest[..i], row);
        if |row| >= Columns {
          data := data + [row];
        }
        i := i + 1;
      }
      assert rest[..i] == rest;
    }
  }

  /** One step of the reading loop: the next row is appended exactly when it
      is kept. */
  lemma SelectStep(head: seq<Row>, done: seq<Row>, row: Row)
    ensures head + KeptRows(done + [row])
      == head + KeptRows(done) + (if |row| >= Columns then [row] else [])
  {
    KeptRowsSnoc(done, row);
  }

  /** `convert_csv_for_cloudflare`: `input` is the file's rows, or None when it
      cannot be read; `canWrite` says whether the output file can be opened.
      Returns success and the rows written, if any. */
  method ConvertCsvForCloudflare(input: Option<seq<Row>>, canWrite: bool)
    returns (ok: bool, output: Option<seq<Row>>)
    ensures ok <==> input.Some? && canWrite
    ensures output == if ok then Some(Converted(input.value)) else None
  {
    if input.None? {
      return false, None;
    }
    var data := SelectData(input.value);
    if !canWrite {
      return false, None;
    }
    var out: seq<Row> := [Header];
    var j := 0;
    while j < |data|
      invariant 0 <= j <= |data|
      invariant out == [Header] + NormalizeAll(data[..j])
    {
      var cleaned := CleanRow(data[j]);
      NormalizeAllSnoc(data, j);
      out := out + [cleaned];
      j := j + 1;
    }
    assert data[..j] == data;
    return true, Some(out);
  }

  lemma NormalizeAllSnoc(data: seq<Row>, j: nat)
    requires j < |data|
    ensures NormalizeAll(data[..j + 1]) == NormalizeAll(data[..j]) + [NormalizeRow(data[j])]
  {
  }

  /** The body of the writing loop: cleans each field in turn, pads with the
      filler, and keeps the first four fields. */
  method CleanRow(row: Row) returns (r: Row)
    ensures r == NormalizeRow(row)
  {
    var cleaned: Row := [];
    var k := 0;
    while k < |row|
      invariant 0 <= k <= |row|
      invariant |cleaned| == k
      invariant forall i :: 0 <= i < k ==> cleaned[i] == CleanField(row[i])
    {
      cleaned := cleaned + [CleanField(row[k])];
      k := k + 1;
    }
    assert cleaned == CleanAll(row);
    while |cleaned| < Columns
      invariant Pad(cleaned) == Pad(CleanAll(row))
      decreases Columns - |cleaned|
    {
      cleaned := cleaned + [Filler];
    }
    r := cleaned[..Columns];
  }

  /** `validate_csv`: the file can be read and has a row. The header is shown
      but never compared with the expected one. */
  function ValidateCsv(file: Option<seq<Row>>): bool
  {
    file.Some? && |file.value| > 0
  }

  /** A missing or empty file fails validation; any file with a first row
      passes, whatever that row holds. */
  lemma ValidateIgnoresHeader(first: Row, rest: seq<Row>)
    ensures ValidateCsv(Some([first] + rest))
    ensures !ValidateCsv(None) && !ValidateCsv(Some([]))
  {
  }

  /** Every converted file validates. */
  lemma ConvertedValidates(input: seq<Row>)
    ensures ValidateCsv(Some(Converted(input)))
  {
    ValidateIgnoresHeader(Header, NormalizeAll(SelectRows(input)));
  }
}
