/**
 * `FinanceModel` of `models/finance.py`: the table model behind the ledger view.
 * It holds the ledger table and replaces it on every edit: adding a row, removing
 * a row and writing a cell each end by re-sorting the rows by date and recomputing
 * the running balance.
 *
 * The table is kept as its rows (`Data`, `Descrição`, `Valor`, `Categoria`) and,
 * apart, its `Saldo` column, so that "the same rows in another order" is multiset
 * equality of `rows`. Amounts are integer cents.
 */
module Finance {
  import opened Wrappers
  import opened Text
  import opened Ledger
  import Schema

  /** The Qt item-data roles `setData` tells apart. */
  datatype Role = DisplayRole | EditRole | OtherRole

  /** The `Categoria` of a row added by hand. */
  const ManualCategory: string := "Manually added!"

  /** The operation whose amount is added; every other operation subtracts. */
  const Income: string := "Entrada"

  /** A loaded row whose `Categoria` is recomputed as its description up to the first `:`. */
  function Derived(e: Entry): (r: Entry)
    ensures r.date == e.date && r.desc == e.desc && r.valor == e.valor
    ensures r.categoria <= e.desc && ':' !in r.categoria
    ensures |r.categoria| < |e.desc| ==> e.desc[|r.categoria|] == ':'
    ensures ':' !in e.desc ==> r.categoria == e.desc
  {
    e.(categoria := FieldBefore(e.desc, ':'))
  }

  /** The row `add_registry` builds from the dialog's date, description, operation and amount. */
  function NewEntry(date: Date, desc: string, operation: string, amount: int): (e: Entry)
    ensures e.date == date && e.desc == desc && e.categoria == ManualCategory
    ensures operation == Income ==> e.valor == amount
    ensures operation != Income ==> e.valor == -amount
  {
    Entry(date, desc, if operation == Income then amount else -amount, ManualCategory)
  }

  /**
   * The rows left when the row at position `r` is filtered out; an `r` outside
   * the table matches no row and removes nothing.
   */
  function WithoutRow<T>(rows: seq<T>, r: int): (w: seq<T>)
    ensures 0 <= r < |rows| ==> |w| == |rows| - 1 && multiset(w) + multiset{rows[r]} == multiset(rows)
    ensures 0 <= r < |rows| ==> forall i :: 0 <= i < |w| ==> w[i] == rows[if i < r then i else i + 1]
    ensures !(0 <= r < |rows|) ==> w == rows
  {
    if 0 <= r < |rows| then
      assert rows == rows[..r] + [rows[r]] + rows[r + 1..];
      rows[..r] + rows[r + 1..]
    else rows
  }

  /** The dtype `setData` inspects: the type FinanceSchema gives column `col`. */
  function ColumnType(col: nat): Schema.DType
    requires col < |Schema.FinanceDefault|
  {
    Schema.FinanceDefault[col].1
  }

  /** The parser for the dtype of column `col` rejects `value`. */
  predicate ParseFails(col: nat, value: string, parseFloat: string -> Option<int>, parseDate: string -> Option<Date>)
    requires col < |Schema.FinanceDefault|
  {
    (ColumnType(col) == Schema.Float64 && parseFloat(value).None?)
    || (ColumnType(col) == Schema.Date && parseDate(value).None?)
  }

  /**
   * `setData`'s write of `value` into column `col` of row `e`: a float column takes
   * `float(value)` (as cents), the date column `date.fromisoformat(value)`, a
   * string column the value itself. `None` is a parse that raised `ValueError`.
   * The `Saldo` column (3) is not part of a row: a write there leaves the row as it was.
   */
  function Assign(e: Entry, col: nat, value: string, parseFloat: string -> Option<int>, parseDate: string -> Option<Date>): (r: Option<Entry>)
    requires col < |Schema.FinanceDefault|
    ensures r.None? <==> ParseFails(col, value, parseFloat, parseDate)
    ensures r.Some? && col != 0 ==> r.value.date == e.date
    ensures r.Some? && col != 1 ==> r.value.desc == e.desc
    ensures r.Some? && col != 2 ==> r.value.valor == e.valor
    ensures r.Some? && col != 4 ==> r.value.categoria == e.categoria
    ensures r.Some? && col == 0 ==> r.value.date == parseDate(value).value
    ensures r.Some? && col == 1 ==> r.value.desc == value
    ensures r.Some? && col == 2 ==> r.value.valor == parseFloat(value).value
    ensures r.Some? && col == 4 ==> r.value.categoria == value
  {
    if col == 0 then
      var d :- parseDate(value);
      Some(e.(date := d))
    else if col == 1 then Some(e.(desc := value))
    else if col == 2 then
      var x :- parseFloat(value);
      Some(e.(valor := x))
    else if col == 3 then
      var _ :- parseFloat(value);
      Some(e)
    else Some(e.(categoria := value))
  }

  /** `flags`: every column but `Saldo` is editable. */
  function Editable(col: nat): (r: bool)
    requires col < |Schema.FinanceNames|
    ensures r <==> Schema.FinanceNames[col] != "Saldo"
  {
    col != 3
  }

  /** A value written into the one column `flags` marks read-only never reaches a row. */
  lemma ReadOnlyWriteIsLost(e: Entry, col: nat, value: string, parseFloat: string -> Option<int>, parseDate: string -> Option<Date>)
    requires col < |Schema.FinanceDefault|
    requires !Editable(col)
    ensures Assign(e, col, value, parseFloat, parseDate) == (if parseFloat(value).Some? then Some(e) else None)
  {
  }

  /** An added row grows the table by one, keeps every old row and moves the final balance by its amount. */
  lemma {:induction false} AddedRow(before: seq<Entry>, e: Entry, after: seq<Entry>, saldo: seq<int>)
    requires Recomputed(before + [e], after, saldo)
    ensures |after| == |before| + 1
    ensures multiset(after) == multiset(before) + multiset{e}
    ensures saldo[|after| - 1] == Total(before) + e.valor
  {
    RecomputedLastBalance(before + [e], after, saldo);
    SumIfConcat(before, [e], Always);
    assert [e][..0] == [];
  }

  /** A removed row leaves the table one shorter and takes its amount out of the final balance. */
  lemma {:induction false} RemovedRow(before: seq<Entry>, r: nat, after: seq<Entry>, saldo: seq<int>)
    requires r < |before| && Recomputed(WithoutRow(before, r), after, saldo)
    ensures |after| == |before| - 1
    ensures multiset(after) + multiset{before[r]} == multiset(before)
    ensures |after| > 0 ==> saldo[|after| - 1] == Total(before) - before[r].valor
  {
    var w := WithoutRow(before, r);
    assert |after| == |multiset(after)| == |multiset(w)| == |w|;
    assert before == before[..r] + [before[r]] + before[r + 1..];
    if |after| > 0 {
      RecomputedLastBalance(w, after, saldo);
      assert w == before[..r] + before[r + 1..];
      SumIfConcat(before[..r] + [before[r]], before[r + 1..], Always);
      SumIfConcat(before[..r], [before[r]], Always);
      SumIfConcat(before[..r], before[r + 1..], Always);
      assert [before[r]][..0] == [];
    }
  }

  class FinanceModel {
    /** The ledger rows, in table order. */
    var rows: seq<Entry>
    /** The `Saldo` column, one cell per row. */
    var saldo: seq<int>

    /** Every row has its `Saldo` cell. */
    predicate Valid()
      reads this
    {
      |saldo| == |rows|
    }

    /** The table is in the state `recalculate_data` leaves it: sorted by date, with its running balance. */
    predicate Settled()
      reads this
    {
      DateSorted(rows) && Balanced(rows, saldo)
    }

    /**
     * `__init__`: the table `read_csv` returned, with every `Categoria` replaced by
     * its row's description up to the first `:`; `Saldo` is kept as loaded.
     */
    constructor(loaded: seq<Entry>, loadedSaldo: seq<int>)
      requires |loadedSaldo| == |loaded|
      ensures Valid()
      ensures |rows| == |loaded| && forall i :: 0 <= i < |loaded| ==> rows[i] == Derived(loaded[i])
      ensures saldo == loadedSaldo
    {
      rows := seq(|loaded|, i requires 0 <= i < |loaded| => Derived(loaded[i]));
      saldo := loadedSaldo;
    }

    /** `rowCount`. */
    function RowCount(): (n: nat)
      reads this
      ensures n == |rows|
    {
      |rows|
    }

    /** `columnCount`: the five canonical columns. */
    function ColumnCount(): (n: nat)
      ensures n == |Schema.FinanceNames|
    {
      5
    }

    /**
     * `recalculate_data`: the rows sorted by date (rows of one date in any order)
     * and `Saldo` set to the running sum of `Valor`.
     */
    method RecalculateData()
      requires Valid()
      modifies this
      ensures Valid() && Settled()
      ensures Recomputed(old(rows), rows, saldo)
    {
      rows := SortByDate(rows);
      saldo := RunningBalance(rows);
    }

    /**
     * `add_registry`: one row with the dialog's date and description, `+amount` for
     * an income and `-amount` otherwise, category `Manually added!`, appended and
     * then sorted and recomputed.
     */
    method AddRegistry(date: Date, desc: string, operation: string, amount: int) returns (ok: bool)
      requires Valid()
      modifies this
      ensures ok && Valid() && Settled()
      ensures Recomputed(old(rows) + [NewEntry(date, desc, operation, amount)], rows, saldo)
    {
      var before := rows;
      rows := SortByDate(rows + [NewEntry(date, desc, operation, amount)]);
      saldo := saldo + [0];
      assert |rows| == |multiset(rows)| == |before| + 1;
      RecalculateData();
      assert multiset(rows) == multiset(before + [NewEntry(date, desc, operation, amount)]);
      ok := true;
    }

    /**
     * `remove_registry`: the row at position `r` is filtered out (an `r` outside the
     * table, such as an invalid index's -1, removes nothing), then the table is
     * recomputed; the call always reports success.
     */
    method RemoveRegistry(r: int) returns (ok: bool)
      requires Valid()
      modifies this
      ensures ok && Valid() && Settled()
      ensures Recomputed(WithoutRow(old(rows), r), rows, saldo)
    {
      rows, saldo := WithoutRow(rows, r), WithoutRow(saldo, r);
      RecalculateData();
      ok := true;
    }

    /**
     * `setData` for the cell at (`row`, `col`). A role other than display/edit
     * reports success and changes nothing; an empty value or a value the column's
     * parser rejects reports failure and changes nothing; otherwise the cell is
     * written and the table recomputed, so a write into `Saldo` only re-sorts.
     */
    method SetData(row: nat, col: nat, value: string, role: Role,
                   parseFloat: string -> Option<int>, parseDate: string -> Option<Date>) returns (ok: bool)
      requires Valid() && row < |rows| && col < |Schema.FinanceDefault|
      modifies this
      ensures Valid()
      ensures role == OtherRole ==> ok && rows == old(rows) && saldo == old(saldo)
      ensures role != OtherRole && value == [] ==> !ok
      ensures role != OtherRole && value != [] ==> ok == Assign(old(rows)[row], col, value, parseFloat, parseDate).Some?
      ensures !ok ==> rows == old(rows) && saldo == old(saldo)
      ensures ok && role != OtherRole ==> Settled()
      ensures ok && role != OtherRole ==>
        Assign(old(rows)[row], col, value, parseFloat, parseDate).Some? &&
        Recomputed(old(rows)[row := Assign(old(rows)[row], col, value, parseFloat, parseDate).value], rows, saldo)
    {
      if role == OtherRole {
        return true;
      }
      if value == [] {
        return false;
      }
      var written := Assign(rows[row], col, value, parseFloat, parseDate);
      if written.None? {
        return false;
      }
      rows := rows[row := written.value];
      assert Valid();
      RecalculateData();
      ok := true;
    }

    /**
     * `get_pix_data`: one group per distinct (`Data`, `Categoria`) pair in date
     * order, holding that pair's summed `Valor`; the groups add up to the table total.
     */
    function GetPixData(): (r: seq<Group>)
      reads this
      ensures forall i, j :: 0 <= i < j < |r| ==> r[i].date <= r[j].date
      ensures forall i, j :: 0 <= i < j < |r| ==> (r[i].date, r[i].categoria) != (r[j].date, r[j].categoria)
      ensures forall k :: HasKey(rows, k) <==> exists i :: 0 <= i < |r| && (r[i].date, r[i].categoria) == k
      ensures forall i :: 0 <= i < |r| ==> r[i].valor == SumIf(rows, InGroup(r[i].date, r[i].categoria))
      ensures GroupTotal(r) == Total(rows)
    {
      PixDataAddsUp(rows);
      PixData(rows)
    }

    /**
     * `get_total_amount_by_day`: one entry per distinct date, ascending, with the
     * last `Saldo` of that date; once the table is settled that is the sum of
     * `Valor` over every row dated on or before it.
     */
    function GetTotalAmountByDay(): (r: seq<(Date, int)>)
      reads this
      requires Valid()
      ensures forall i, j :: 0 <= i < j < |r| ==> r[i].0 < r[j].0
      ensures forall d :: HasDate(rows, d) <==> exists k :: 0 <= k < |r| && r[k].0 == d
      ensures forall k :: 0 <= k < |r| ==>
                LastIndexOn(rows, r[k].0).Some? && r[k].1 == saldo[LastIndexOn(rows, r[k].0).value]
      ensures Settled() ==> forall k :: 0 <= k < |r| ==> r[k].1 == SumIf(rows, OnOrBefore(r[k].0))
    {
      var r := TotalAmountByDay(rows, saldo);
      assert Settled() ==> forall k :: 0 <= k < |r| ==> r[k].1 == SumIf(rows, OnOrBefore(r[k].0)) by {
        if Settled() {
          forall k | 0 <= k < |r| ensures r[k].1 == SumIf(rows, OnOrBefore(r[k].0)) {
            DayEndIsCumulative(rows, saldo, k);
          }
        }
      }
      r
    }
  }
}
