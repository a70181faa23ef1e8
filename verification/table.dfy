/** `load_parquet_files`: the four partition files read in a fixed order and
    concatenated into one table whose rows are numbered 0..n-1.

    Reading a parquet file is outside the model: `read` gives, for each file
    name, the rows it holds or the fact that reading it raised. */
module Table {
  import opened Exceptions

  /** A cell value. Only whether it is a string matters to the model. */
  datatype Cell = Str(s: string) | NonStr

  /** A row: column name to cell. */
  type Row = map<string, Cell>

  /** A row of the combined table with the index label pandas gives it. */
  datatype IndexedRow = IndexedRow(idx: nat, row: Row)

  type Reader = string -> Fallible<seq<Row>>

  /** The partition files, in the order they are read and concatenated. */
  const ParquetFiles: seq<string> := [
    "train-00000-of-00004-237b1b1141fdcfa1.parquet",
    "train-00001-of-00004-d46654ac93566129.parquet",
    "train-00002-of-00004-3b4f78b99eedadc2.parquet",
    "train-00003-of-00004-2369b90eb0860a76.parquet"
  ]

  ghost predicate AllReadable(files: seq<string>, read: Reader) {
    forall k | 0 <= k < |files| :: read(files[k]).Returns?
  }

  /** The rows of every file of `files`, file after file. */
  ghost function RowsOf(files: seq<string>, read: Reader): seq<Row>
    requires AllReadable(files, read)
    decreases |files|
  {
    if |files| == 0 then []
    else RowsOf(files[..|files| - 1], read) + read(files[|files| - 1]).value
  }

  /** Reads `files` in order; the first read that raises aborts the whole
      read and no partial result survives. */
  function ReadAll(files: seq<string>, read: Reader): (r: Fallible<seq<Row>>)
    ensures r.Returns? <==> AllReadable(files, read)
    ensures r.Returns? ==> r.value == RowsOf(files, read)
    decreases |files|
  {
    if |files| == 0 then Returns([])
    else
      match ReadAll(files[..|files| - 1], read)
      case Throws => Throws
      case Returns(front) =>
        match read(files[|files| - 1])
        case Throws => Throws
        case Returns(last) => Returns(front + last)
  }

  /** `pd.concat(dfs, ignore_index=True)`: the rows keep their order and are
      relabelled 0..n-1. */
  function Renumber(rows: seq<Row>): (t: seq<IndexedRow>)
    ensures |t| == |rows|
    ensures forall i | 0 <= i < |t| :: t[i] == IndexedRow(i, rows[i])
  {
    seq(|rows|, i requires 0 <= i < |rows| => IndexedRow(i, rows[i]))
  }

  /** The whole of `load_parquet_files`. */
  function LoadParquetFiles(read: Reader): (t: Fallible<seq<IndexedRow>>)
    ensures t.Returns? <==> AllReadable(ParquetFiles, read)
    ensures t.Returns? ==>
              && Numbered(t.value)
              && |t.value| == |RowsOf(ParquetFiles, read)|
              && forall i | 0 <= i < |t.value| :: t.value[i].row == RowsOf(ParquetFiles, read)[i]
  {
    match ReadAll(ParquetFiles, read)
    case Throws => Throws
    case Returns(rows) => Returns(Renumber(rows))
  }

  /** A table whose labels are its positions: what `ignore_index=True` yields. */
  predicate Numbered(t: seq<IndexedRow>) {
    forall i | 0 <= i < |t| :: t[i].idx == i
  }

  /** Loading succeeds exactly when all four files can be read; the table is
      then the four files' rows in file-list order, numbered 0..n-1. */
  lemma LoadSpec(read: Reader)
    ensures LoadParquetFiles(read).Returns? <==> AllReadable(ParquetFiles, read)
    ensures LoadParquetFiles(read).Returns? ==>
      var t := LoadParquetFiles(read).value;
      && Numbered(t)
      && |t| == |read(ParquetFiles[0]).value| + |read(ParquetFiles[1]).value|
              + |read(ParquetFiles[2]).value| + |read(ParquetFiles[3]).value|
      && (seq(|t|, i requires 0 <= i < |t| => t[i].row))
         == read(ParquetFiles[0]).value + read(ParquetFiles[1]).value
          + read(ParquetFiles[2]).value + read(ParquetFiles[3]).value
  {
    if AllReadable(ParquetFiles, read) {
      var f := ParquetFiles;
      assert f[..1][..0] == [];
      assert RowsOf(f[..1], read) == read(f[0]).value;
      assert f[..2][..1] == f[..1];
      assert RowsOf(f[..2], read) == read(f[0]).value + read(f[1]).value;
      assert f[..3][..2] == f[..2];
      assert RowsOf(f[..3], read) == read(f[0]).value + read(f[1]).value + read(f[2]).value;
      assert f[..3] == f[..|f| - 1];
    }
  }
}
