/** The record file shared by the bot and its maintenance scripts, seen as rows of fields. */
module CsvRows {

  /** One row as Python's `csv.reader` yields it: a list of field strings. */
  type Row = seq<string>

  /** The fixed header row of the record file (bot.py:27, csvFix.py:34). */
  const Header: Row := ["numerical_file_id", "file_id", "file_name", "file_type"]
}
