/** Cells, rows and the failures the pandas pipeline can raise. */
module Frames {

  /** One cell as read from a CSV file: missing (NaN, NA or None), a string or an integer. */
  datatype Value = Missing | Str(s: string) | Int(i: int)

  /** A row maps column names to cells; a column the row does not carry reads as missing. */
  type Row = map<string, Value>

  function Get(row: Row, column: string): Value
  {
    if column in row then row[column] else Missing
  }

  /** The exceptions the source raises while handling a partition or a file. */
  datatype Fault =
    | MissingColumn(column: string)  // KeyError on a column the frame does not have
    | NotAnInteger(column: string)   // int() applied to a cell that is not an integer
    | NotAString(column: string)     // str.lower() applied to a cell that is not a string
    | NotAScalar(column: string)     // TypeError: a repeated column selects a Series, not a cell
    | Unreadable                     // the CSV file itself cannot be read

  datatype Result<+T> = Success(value: T) | Failure(fault: Fault) {
    predicate IsFailure() { Failure? }
    function PropagateFailure<U>(): Result<U>
      requires Failure?
    {
      Failure(fault)
    }
    function Extract(): T
      requires Success?
    {
      value
    }
  }

  datatype Option<+T> = None | Some(value: T)

  /** The names a list holds. */
  function Names(names: seq<string>): set<string>
  {
    set c | c in names
  }

  /** No column name occurs twice. */
  predicate Distinct(names: seq<string>)
  {
    forall i, j :: 0 <= i < j < |names| ==> names[i] != names[j]
  }
}
