/**
 * The dataframes that the ingestion code builds with polars and pandas, as
 * values: a frame is a height and an ordered list of named columns of cells.
 * Only the operations the pipeline uses are modelled: looking a column up,
 * adding or replacing one, dropping, renaming, selecting in a given order and
 * keeping a subset of the rows. The errors the libraries raise are values of
 * `Err`.
 */
module Frames {
  import opened Wrappers

  /** The errors of the ingestion pipeline, named after the exception the source raises. */
  datatype Err =
    | ComputeError                       // pl.exceptions.ComputeError from a polars reader
    | ReadError(what: string)            // any other error a reader raises
    | ColumnNotFound(names: seq<string>) // polars: a named column is absent
    | DuplicateColumn(name: string)      // polars: a rename onto a column that exists
    | InvalidOperation(what: string)     // polars: a text expression on a non-text cell
    | KeyError(keys: seq<string>)        // pandas / dict: absent keys
    | AttributeError(what: string)       // `.split` on a cell that is not text
    | UnpackError(parts: nat)            // `a, b = s.split(...)` with another number of parts
    | NotParsed                          // no separator found in the header
    | CoerceError(column: string)        // a dtype conversion that raises
    | ValueError(column: string)         // pandas: a table of several columns assigned to one column

  /** One cell: missing, text, a number, or a date (as a day ordinal). */
  datatype Cell = Null | Text(s: string) | Num(x: real) | Day(d: int)

  datatype Column = Column(name: string, cells: seq<Cell>)

  datatype Frame = Frame(height: nat, columns: seq<Column>)

  /** Column names in frame order. */
  function Names(f: Frame): (r: seq<string>)
    ensures |r| == |f.columns|
    ensures forall i :: 0 <= i < |r| ==> r[i] == f.columns[i].name
  {
    seq(|f.columns|, i requires 0 <= i < |f.columns| => f.columns[i].name)
  }

  predicate DistinctNames(names: seq<string>) {
    forall i, j :: 0 <= i < j < |names| ==> names[i] != names[j]
  }

  /** Every column has one cell per row and no two columns share a name. */
  predicate Valid(f: Frame) {
    (forall i :: 0 <= i < |f.columns| ==> |f.columns[i].cells| == f.height)
    && DistinctNames(Names(f))
  }

  /** `name in df.columns`. */
  predicate Has(f: Frame, name: string) {
    name in Names(f)
  }

  /** The position of the column called `name`. */
  function IndexOf(f: Frame, name: string): (r: Option<nat>)
    ensures r.Some? ==> r.value < |f.columns| && f.columns[r.value].name == name
    ensures r.None? <==> !Has(f, name)
    decreases |f.columns|
  {
    if |f.columns| == 0 then None
    else if f.columns[|f.columns| - 1].name == name then Some(|f.columns| - 1)
    else
      var init := Frame(f.height, f.columns[..|f.columns| - 1]);
      assert forall i :: 0 <= i < |init.columns| ==> Names(init)[i] == Names(f)[i];
      assert Names(f) == Names(init) + [f.columns[|f.columns| - 1].name];
      IndexOf(init, name)
  }

  /** `df[name]`, when the column exists. */
  function Get(f: Frame, name: string): (r: Option<Column>)
    ensures r.Some? <==> Has(f, name)
    ensures r.Some? ==> r.value.name == name && r.value in f.columns
  {
    match IndexOf(f, name)
    case None => None
    case Some(i) => Some(f.columns[i])
  }

  /** In a valid frame, the column found by name is the one at that name's position. */
  lemma GetAt(f: Frame, i: nat)
    requires Valid(f) && i < |f.columns|
    ensures Get(f, f.columns[i].name) == Some(f.columns[i])
  {
    var j := IndexOf(f, f.columns[i].name).value;
    assert Names(f)[i] == Names(f)[j];
  }

  /** In a valid frame, a column is the one its name finds. */
  lemma GetMember(f: Frame, c: Column)
    requires Valid(f) && c in f.columns
    ensures Get(f, c.name) == Some(c)
  {
    var i :| 0 <= i < |f.columns| && f.columns[i] == c;
    GetAt(f, i);
  }

  /** A column holding `c` on every row. */
  function Constant(name: string, height: nat, c: Cell): (col: Column)
    ensures col.name == name && |col.cells| == height
    ensures forall k :: 0 <= k < height ==> col.cells[k] == c
  {
    Column(name, seq(height, _ => c))
  }

  /**
   * `df[col.name] = col` / `with_columns(col)`: a column of that name is replaced
   * where it stands, otherwise the column is appended.
   */
  function WithColumn(f: Frame, col: Column): (r: Frame)
    requires Valid(f) && |col.cells| == f.height
    ensures Valid(r) && r.height == f.height
    ensures Get(r, col.name) == Some(col)
    ensures forall n :: n != col.name ==> Get(r, n) == Get(f, n)
    ensures Has(f, col.name) ==> Names(r) == Names(f)
    ensures !Has(f, col.name) ==> Names(r) == Names(f) + [col.name]
  {
    match IndexOf(f, col.name)
    case Some(i) =>
      var r := Frame(f.height, f.columns[i := col]);
      assert Names(r) == Names(f);
      GetAt(r, i);
      assert forall n :: n != col.name ==> Get(r, n) == Get(f, n) by {
        forall n | n != col.name ensures Get(r, n) == Get(f, n) {
          if Has(f, n) {
            var j := IndexOf(f, n).value;
            GetAt(f, j);
            GetAt(r, j);
          }
        }
      }
      r
    case None =>
      var r := Frame(f.height, f.columns + [col]);
      assert Names(r) == Names(f) + [col.name];
      GetAt(r, |f.columns|);
      assert forall n :: n != col.name ==> Get(r, n) == Get(f, n) by {
        forall n | n != col.name ensures Get(r, n) == Get(f, n) {
          if Has(f, n) {
            var j := IndexOf(f, n).value;
            GetAt(f, j);
            GetAt(r, j);
          }
        }
      }
      r
  }

  function Without(cols: seq<Column>, name: string): seq<Column> {
    if |cols| == 0 then []
    else if cols[0].name == name then Without(cols[1..], name)
    else [cols[0]] + Without(cols[1..], name)
  }

  lemma {:induction false} WithoutKeeps(cols: seq<Column>, name: string)
    ensures forall c :: c in Without(cols, name) <==> c in cols && c.name != name
    ensures forall i :: 0 <= i < |Without(cols, name)| ==> Without(cols, name)[i].name != name
    decreases |cols|
  {
    if |cols| > 0 {
      WithoutKeeps(cols[1..], name);
      assert cols == [cols[0]] + cols[1..];
    }
  }

  predicate DistinctColumns(cols: seq<Column>) {
    forall i, j :: 0 <= i < j < |cols| ==> cols[i].name != cols[j].name
  }

  lemma {:induction false} WithoutDistinct(cols: seq<Column>, name: string)
    requires DistinctColumns(cols)
    ensures DistinctColumns(Without(cols, name))
    decreases |cols|
  {
    if |cols| > 0 {
      WithoutDistinct(cols[1..], name);
      WithoutKeeps(cols[1..], name);
      var w := Without(cols[1..], name);
      if cols[0].name != name {
        forall j | 0 <= j < |w| ensures cols[0].name != w[j].name {
          assert w[j] in cols[1..];
          var k :| 0 <= k < |cols[1..]| && cols[1..][k] == w[j];
          assert cols[k + 1] == w[j];
        }
        assert Without(cols, name) == [cols[0]] + w;
      }
    }
  }

  lemma WithoutValid(f: Frame, name: string)
    requires Valid(f)
    ensures Valid(Frame(f.height, Without(f.columns, name)))
  {
    assert DistinctColumns(f.columns) by {
      forall i, j | 0 <= i < j < |f.columns| ensures f.columns[i].name != f.columns[j].name {
        assert Names(f)[i] != Names(f)[j];
      }
    }
    WithoutDistinct(f.columns, name);
    WithoutKeeps(f.columns, name);
    var r := Frame(f.height, Without(f.columns, name));
    forall i | 0 <= i < |r.columns| ensures |r.columns[i].cells| == f.height {
      assert r.columns[i] in f.columns;
    }
  }

  /** `df.drop(name)`: polars refuses to drop a column that is absent. */
  function Drop(f: Frame, name: string): (r: Result<Frame, Err>)
    ensures r.Failure? <==> !Has(f, name)
    ensures r.Failure? ==> r.error == ColumnNotFound([name])
    ensures r.Success? ==> r.value.height == f.height && !Has(r.value, name)
    ensures r.Success? ==> forall n :: n != name ==> Has(r.value, n) == Has(f, n)
    ensures r.Success? && Valid(f) ==> Valid(r.value) && forall n :: n != name ==> Get(r.value, n) == Get(f, n)
  {
    if !Has(f, name) then Failure(ColumnNotFound([name]))
    else
      var r := Frame(f.height, Without(f.columns, name));
      WithoutKeeps(f.columns, name);
      assert forall n :: n != name ==> Has(r, n) == Has(f, n) by {
        forall n | n != name ensures Has(r, n) == Has(f, n) {
          if Has(f, n) {
            var i :| 0 <= i < |f.columns| && Names(f)[i] == n;
            assert f.columns[i] in r.columns;
            var j :| 0 <= j < |r.columns| && r.columns[j] == f.columns[i];
            assert Names(r)[j] == n;
          }
          if Has(r, n) {
            var j :| 0 <= j < |r.columns| && Names(r)[j] == n;
            assert r.columns[j] in f.columns;
            var i :| 0 <= i < |f.columns| && f.columns[i] == r.columns[j];
            assert Names(f)[i] == n;
          }
        }
      }
      assert Valid(f) ==> Valid(r) && forall n :: n != name ==> Get(r, n) == Get(f, n) by {
        if Valid(f) {
          WithoutValid(f, name);
          forall n | n != name ensures Get(r, n) == Get(f, n) {
            if Has(f, n) {
              GetMember(r, Get(r, n).value);
              GetMember(f, Get(r, n).value);
            }
          }
        }
      }
      Success(r)
  }

  /**
   * `df.rename({from: to})`: polars refuses an absent `from` and a `to` that is
   * already another column; the cells are untouched.
   */
  function Rename(f: Frame, from: string, to: string): (r: Result<Frame, Err>)
    ensures !Has(f, from) ==> r == Failure(ColumnNotFound([from]))
    ensures Has(f, from) && from != to && Has(f, to) ==> r == Failure(DuplicateColumn(to))
    ensures Has(f, from) && (from == to || !Has(f, to)) ==> r.Success?
    ensures r.Success? ==> r.value.height == f.height && |r.value.columns| == |f.columns|
    ensures r.Success? ==> forall i :: 0 <= i < |f.columns| ==>
              r.value.columns[i].cells == f.columns[i].cells
              && r.value.columns[i].name == (if f.columns[i].name == from then to else f.columns[i].name)
    ensures r.Success? && Valid(f) ==> Valid(r.value)
    ensures r.Success? && Valid(f) ==> Get(r.value, to) == Some(Column(to, Get(f, from).value.cells))
    ensures r.Success? && Valid(f) ==> forall n :: n != from && n != to ==> Get(r.value, n) == Get(f, n)
  {
    if !Has(f, from) then Failure(ColumnNotFound([from]))
    else if from != to && Has(f, to) then Failure(DuplicateColumn(to))
    else
      var r := Frame(f.height, seq(|f.columns|, i requires 0 <= i < |f.columns| =>
        Column(if f.columns[i].name == from then to else f.columns[i].name, f.columns[i].cells)));
      assert Valid(f) ==> Valid(r) && Get(r, to) == Some(Column(to, Get(f, from).value.cells))
                          && forall n :: n != from && n != to ==> Get(r, n) == Get(f, n) by {
        if Valid(f) {
          RenameValid(f, from, to, r);
        }
      }
      Success(r)
  }

  lemma RenameValid(f: Frame, from: string, to: string, r: Frame)
    requires Valid(f) && Has(f, from) && (from == to || !Has(f, to))
    requires r.height == f.height && |r.columns| == |f.columns|
    requires forall i :: 0 <= i < |f.columns| ==>
               r.columns[i].cells == f.columns[i].cells
               && r.columns[i].name == (if f.columns[i].name == from then to else f.columns[i].name)
    ensures Valid(r)
    ensures Get(r, to) == Some(Column(to, Get(f, from).value.cells))
    ensures forall n :: n != from && n != to ==> Get(r, n) == Get(f, n)
  {
    var k := IndexOf(f, from).value;
    forall i, j | 0 <= i < j < |r.columns| ensures Names(r)[i] != Names(r)[j] {
      assert Names(f)[i] != Names(f)[j];
      assert f.columns[i].name != to || from == to;
      assert f.columns[j].name != to || from == to;
    }
    GetAt(f, k);
    GetAt(r, k);
    forall n | n != from && n != to ensures Get(r, n) == Get(f, n) {
      if Has(f, n) {
        var j := IndexOf(f, n).value;
        GetAt(f, j);
        GetAt(r, j);
      }
      if Has(r, n) {
        var j := IndexOf(r, n).value;
        GetAt(f, j);
        GetAt(r, j);
      }
    }
  }

  /** The requested names that the frame lacks, in request order. */
  function Missing(f: Frame, names: seq<string>): (r: seq<string>)
    ensures forall n :: n in r <==> n in names && !Has(f, n)
  {
    if |names| == 0 then []
    else (if Has(f, names[0]) then [] else [names[0]]) + Missing(f, names[1..])
  }

  /**
   * `df.select(names)` / `df[names]`: the named columns in the order asked for, or
   * the list of names that are absent.
   */
  function Select(f: Frame, names: seq<string>): (r: Result<Frame, seq<string>>)
    ensures r.Failure? <==> exists n :: n in names && !Has(f, n)
    ensures r.Failure? ==> r.error == Missing(f, names) && |r.error| > 0
    ensures r.Success? ==> Names(r.value) == names && r.value.height == f.height
    ensures r.Success? ==> forall i :: 0 <= i < |names| ==> Some(r.value.columns[i]) == Get(f, names[i])
  {
    if exists n :: n in names && !Has(f, n) then
      var n :| n in names && !Has(f, n);
      assert n in Missing(f, names);
      Failure(Missing(f, names))
    else
      Success(Frame(f.height, seq(|names|, i requires 0 <= i < |names| => Get(f, names[i]).value)))
  }

  /** Selecting distinct names out of a valid frame gives a valid frame. */
  lemma SelectValid(f: Frame, names: seq<string>)
    requires Valid(f) && DistinctNames(names)
    requires Select(f, names).Success?
    ensures Valid(Select(f, names).value)
  {
    var r := Select(f, names).value;
    forall i | 0 <= i < |r.columns| ensures |r.columns[i].cells| == r.height {
      var j := IndexOf(f, names[i]).value;
    }
  }

  /** The rows whose flag is set, in their original order. */
  function Pick(cells: seq<Cell>, keep: seq<bool>): (r: seq<Cell>)
    requires |keep| == |cells|
    ensures |r| == Count(keep)
  {
    if |cells| == 0 then []
    else Pick(cells[..|cells| - 1], keep[..|keep| - 1]) + (if keep[|keep| - 1] then [cells[|cells| - 1]] else [])
  }

  function Count(keep: seq<bool>): nat {
    if |keep| == 0 then 0 else Count(keep[..|keep| - 1]) + (if keep[|keep| - 1] then 1 else 0)
  }

  /** `df.filter(mask)`: every column keeps the rows whose flag is set, in order. */
  function FilterRows(f: Frame, keep: seq<bool>): (r: Frame)
    requires Valid(f) && |keep| == f.height
    ensures Valid(r) && Names(r) == Names(f) && r.height == Count(keep)
    ensures forall i :: 0 <= i < |f.columns| ==> r.columns[i].cells == Pick(f.columns[i].cells, keep)
  {
    var r := Frame(Count(keep), seq(|f.columns|, i requires 0 <= i < |f.columns| =>
      Column(f.columns[i].name, Pick(f.columns[i].cells, keep))));
    assert Names(r) == Names(f);
    r
  }
}
