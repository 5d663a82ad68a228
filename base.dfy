/** Shared value types of the query and cache layer: the scalar values a
    database row holds, rows as column-to-value maps, the raw result of a
    cursor, and a Result type standing for the source's exceptions. */
module Base {

  datatype Option<T> = None | Some(value: T)

  /** The exceptions the modelled code can raise. */
  datatype Error =
    | MissingKey                                  // KeyError from a dict lookup
    | NoSection(section: string)                  // configparser.NoSectionError
    | NoOption(section: string, option: string)   // configparser.NoOptionError
    | NotBoolean(value: string)                   // ValueError from getboolean

  datatype Result<T> = Ok(value: T) | Err(error: Error)

  /** A scalar column value as SQLite hands it to Python: TEXT, INTEGER or
      NULL.  REAL and BLOB columns are not part of this model. */
  datatype Value = Text(s: string) | Int(i: int) | Null

  /** A row as the source builds it: a dict from column name to value. */
  type Row = map<string, Value>

  /** What the cursor yields for one statement: the column names of its
      description and the row tuples. */
  datatype RawCursor = RawCursor(description: seq<string>, tuples: seq<seq<Value>>)

  /** SQLite gives every tuple one value per described column. */
  type Cursor = c: RawCursor | forall t :: t in c.tuples ==> |t| == |c.description|
    witness RawCursor([], [])
}
