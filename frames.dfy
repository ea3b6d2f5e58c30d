/** The loaded table (the pandas DataFrame both emitters read): its columns,
    each with a name and a dtype, and its rows of cells in column order. */
module Frames {
  import opened Literals
  import opened TypeInference

  datatype ColumnHeader = ColumnHeader(name: string, kind: ColumnKind)

  datatype Frame = Frame(columns: seq<ColumnHeader>, rows: seq<seq<Cell>>)

  /** A DataFrame is rectangular: every row has one cell per column. */
  predicate Rectangular(f: Frame)
  {
    forall i :: 0 <= i < |f.rows| ==> |f.rows[i]| == |f.columns|
  }

  /** `df.columns` */
  function Names(f: Frame): seq<string>
  {
    seq(|f.columns|, j requires 0 <= j < |f.columns| => f.columns[j].name)
  }

  /** `df[col]`: the cells of column `j`, top to bottom. */
  function ColumnValues(f: Frame, j: nat): seq<Cell>
    requires Rectangular(f) && j < |f.columns|
  {
    seq(|f.rows|, i requires 0 <= i < |f.rows| => f.rows[i][j])
  }
}
