/** The data frame the loader produces and the analyzer consumes: named,
    typed columns of optional cells over a common number of rows. */
module Frames {

  datatype Option<+T> = None | Some(value: T)

  datatype Result<+R, +E> = Success(value: R) | Failure(error: E)

  /** The column's element type as the table library reports it: the name
      it prints and whether it is a date/time type. */
  datatype DType = DType(typeName: string, isDatetime: bool)

  /** One column; `None` is a missing (null) cell. */
  datatype Column<V> = Column(name: string, dtype: DType, cells: seq<Option<V>>)

  /** A data frame: its number of rows and its columns in order. */
  datatype Table<V> = Table(rows: nat, columns: seq<Column<V>>)
  {
    /** Every column holds one cell per row, and column names are unique
        (the readers rename repeated header names). */
    ghost predicate WellFormed()
    {
      && (forall j :: 0 <= j < |columns| ==> |columns[j].cells| == rows)
      && (forall j, k :: 0 <= j < k < |columns| ==> columns[j].name != columns[k].name)
    }
  }

  function Min(a: int, b: int): (m: int)
    ensures m <= a && m <= b && (m == a || m == b)
  {
    if a <= b then a else b
  }
}
