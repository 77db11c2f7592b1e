/** The Cleaner's row loop in `main`: every raw row becomes a cleaned row
    in which each text value went through `clean_amharic_text` and every
    other value is copied as it is. */
module RowCleaning {
  import opened CharClasses
  import opened TextCleaning

  /** A column value as the database driver returns it: text, an integer
      (the `id` column), or SQL NULL. */
  datatype Value = Text(text: string) | Integer(n: int) | Null

  /** A row as a dictionary from column name to value. */
  type Row = map<string, Value>

  /** `cleaned` is what the loop body makes of `row`: the same columns, each
      text value cleaned, every other value unchanged. */
  ghost predicate CleanedFrom(clean: string -> string, row: Row, cleaned: Row)
  {
    && cleaned.Keys == row.Keys
    && (forall key :: key in row && row[key].Text? ==>
          cleaned[key] == Text(clean(row[key].text)))
    && (forall key :: key in row && !row[key].Text? ==> cleaned[key] == row[key])
  }

  /** `clean_amharic_text` as the function the loops apply to each text. */
  function Cleaner(cls: Classes, getText: string -> string): string -> string
  {
    text => CleanAmharicText(cls, getText, text)
  }

  /** The body of the inner loop: a text value is cleaned, any other value
      passes through. */
  ghost function CleanValue(clean: string -> string, value: Value): Value
  {
    if value.Text? then Text(clean(value.text)) else value
  }

  /** The inner loop of `main`: a new dictionary with every column of
      `row`, each text value passed through `clean` and every other value
      copied. */
  method CleanRow(clean: string -> string, row: Row) returns (cleanedRow: Row)
    ensures CleanedFrom(clean, row, cleanedRow)
  {
    cleanedRow := map[];
    var pending := row.Keys;
    while pending != {}
      invariant pending <= row.Keys
      invariant cleanedRow.Keys == row.Keys - pending
      invariant forall key :: key in cleanedRow ==> cleanedRow[key] == CleanValue(clean, row[key])
      decreases pending
    {
      var key :| key in pending;
      var value := row[key];
      if value.Text? {
        cleanedRow := cleanedRow[key := Text(clean(value.text))];
      } else {
        cleanedRow := cleanedRow[key := value];
      }
      pending := pending - {key};
    }
  }

  /** The outer loop of `main`: one cleaned row per raw row, appended in
      the same order. `main` runs it with `Cleaner(cls, getText)`. */
  method CleanRows(clean: string -> string, rows: seq<Row>) returns (cleanedRows: seq<Row>)
    ensures |cleanedRows| == |rows|
    ensures forall i :: 0 <= i < |rows| ==> CleanedFrom(clean, rows[i], cleanedRows[i])
  {
    cleanedRows := [];
    for r := 0 to |rows|
      invariant |cleanedRows| == r
      invariant forall i :: 0 <= i < r ==> CleanedFrom(clean, rows[i], cleanedRows[i])
    {
      var cleanedRow := CleanRow(clean, rows[r]);
      cleanedRows := cleanedRows + [cleanedRow];
    }
  }

  /** What the store step receives: every text value of a cleaned row has
      no ASCII letter or digit, no listed mark, and only word characters and
      plain spaces. */
  lemma CleanedTextsAreClean(cls: Classes, getText: string -> string, row: Row, cleaned: Row, key: string)
    requires CleanedFrom(Cleaner(cls, getText), row, cleaned)
    requires key in cleaned && cleaned[key].Text?
    ensures forall c :: c in cleaned[key].text ==> !IsAsciiAlnum(c) && c !in Punctuation
    ensures forall c :: c in cleaned[key].text ==> c == ' ' || (cls.isWord(c) && !cls.isSpace(c))
  {
    CleanAmharicTextBounds(cls, getText, row[key].text);
  }
}
