/**
 * The credit-card statement layout (`FaturaSchema`: `Tipo`, `Lançamento`, a
 * text `Valor`) and its conversion into the canonical ledger layout, plus
 * the two `load_csv_df` helpers that choose the schema a file is read with.
 *
 * The amount of a statement row is the leftmost match of `[0-9]+,[0-9]+`
 * in its text, read as a decimal number with the comma as the point, and
 * negated: a statement lists expenses.
 */
module Statement {
  import opened Wrappers
  import opened Frames
  import opened Schema
  import opened Text
  import opened Repair
  import opened Libs

  // ---------------------------------------------------------------- the amount pattern

  predicate AllDigits(t: string) {
    forall m :: 0 <= m < |t| ==> IsDigit(t[m])
  }

  /** `t` is exactly what `[0-9]+,[0-9]+` describes: digits, one comma, digits. */
  predicate AmountShape(t: string) {
    exists j :: 0 < j < |t| - 1 && t[j] == ',' && AllDigits(t[..j]) && AllDigits(t[j + 1..])
  }

  /** The end of the run of digits that starts at `i`. */
  function RunEnd(s: string, i: nat): (e: nat)
    requires i <= |s|
    ensures i <= e <= |s|
    ensures forall m :: i <= m < e ==> IsDigit(s[m])
    ensures e < |s| ==> !IsDigit(s[e])
    decreases |s| - i
  {
    if i < |s| && IsDigit(s[i]) then RunEnd(s, i + 1) else i
  }

  /** A run of digits from `i` to `k` is contained in the maximal run from `i`. */
  lemma {:induction false} RunEndReaches(s: string, i: nat, k: nat)
    requires i <= k <= |s|
    requires forall m :: i <= m < k ==> IsDigit(s[m])
    ensures RunEnd(s, i) >= k
    decreases k - i
  {
    if i < k {
      RunEndReaches(s, i + 1, k);
    }
  }

  /** Where a greedy match of the pattern that starts at `i` ends, if one starts there. */
  function MatchAt(s: string, i: nat): (r: Option<nat>)
    requires i <= |s|
    ensures r.Some? ==> i < r.value <= |s| && AmountShape(s[i..r.value])
    ensures r.Some? ==> r.value == |s| || !IsDigit(s[r.value])
  {
    if i < |s| && IsDigit(s[i]) then
      var j := RunEnd(s, i);
      if j + 1 < |s| && s[j] == ',' && IsDigit(s[j + 1]) then
        var e := RunEnd(s, j + 1);
        var t := s[i..e];
        assert t[j - i] == ',';
        assert t[..j - i] == s[i..j] && t[j - i + 1..] == s[j + 1..e];
        Some(e)
      else None
    else None
  }

  /** Whenever the pattern matches some text starting at `i`, a greedy match starts at `i`. */
  lemma ShapeMatches(s: string, i: nat, k: nat)
    requires i <= k <= |s| && AmountShape(s[i..k])
    ensures MatchAt(s, i).Some?
  {
    var e := CommaAfterRun(s, i, k);
  }

  /** Text matching the pattern from `i` is a run of digits from `i` ended by a comma and a digit. */
  lemma CommaAfterRun(s: string, i: nat, k: nat) returns (e: nat)
    requires i <= k <= |s| && AmountShape(s[i..k])
    ensures i < |s| && IsDigit(s[i])
    ensures RunEnd(s, i) == e && e + 1 < |s| && s[e] == ',' && IsDigit(s[e + 1])
  {
    var t := s[i..k];
    var j := ShapeComma(t);
    assert forall m :: i <= m < i + j ==> IsDigit(s[m]) by {
      forall m | i <= m < i + j ensures IsDigit(s[m]) {
        assert s[m] == t[m - i];
      }
    }
    assert s[i + j] == t[j] && s[i + j + 1] == t[j + 1];
    RunEndReaches(s, i, i + j);
    assert !IsDigit(s[i + j]);
    e := i + j;
  }

  /** The comma of text that has the shape of an amount, with digits on either side of it. */
  lemma ShapeComma(t: string) returns (j: nat)
    requires AmountShape(t)
    ensures 0 < j < |t| - 1 && t[j] == ',' && IsDigit(t[j + 1])
    ensures forall m :: 0 <= m < j ==> IsDigit(t[m])
  {
    j :| 0 < j < |t| - 1 && t[j] == ',' && AllDigits(t[..j]) && AllDigits(t[j + 1..]);
    assert t[j + 1..][0] == t[j + 1];
    forall m | 0 <= m < j ensures IsDigit(t[m]) {
      assert t[..j][m] == t[m];
    }
  }

  /** The leftmost start from `i` on where the pattern matches, with the end of the greedy match. */
  function FindAmountFrom(s: string, i: nat): (r: Option<(nat, nat)>)
    requires i <= |s|
    ensures r.Some? ==> i <= r.value.0 <= |s| && MatchAt(s, r.value.0) == Some(r.value.1)
    ensures r.Some? ==> forall m :: i <= m < r.value.0 ==> MatchAt(s, m).None?
    ensures r.None? ==> forall m :: i <= m <= |s| ==> MatchAt(s, m).None?
    decreases |s| - i
  {
    match MatchAt(s, i)
    case Some(e) => Some((i, e))
    case None => if i == |s| then None else FindAmountFrom(s, i + 1)
  }

  /** `str.extract(r'([0-9]+,[0-9]+)', 1)`: the position of the leftmost match and the end of its greedy extent. */
  function FindAmount(s: string): (r: Option<(nat, nat)>)
    ensures r.Some? ==> r.value.0 < r.value.1 <= |s| && AmountShape(s[r.value.0..r.value.1])
    ensures r.Some? ==> r.value.1 == |s| || !IsDigit(s[r.value.1])
  {
    FindAmountFrom(s, 0)
  }

  /**
   * The match is the leftmost one: no text matching the pattern starts before it,
   * and when nothing is found no part of the text matches the pattern.
   */
  lemma FindAmountIsLeftmost(s: string, i: nat, k: nat)
    requires i <= k <= |s| && AmountShape(s[i..k])
    ensures FindAmount(s).Some? && FindAmount(s).value.0 <= i
  {
    ShapeMatches(s, i, k);
  }

  // ---------------------------------------------------------------- the amount's value

  /** The number a string of decimal digits denotes. */
  function DigitsValue(d: string): nat
    requires AllDigits(d)
  {
    if |d| == 0 then 0
    else DigitsValue(d[..|d| - 1]) * 10 + (d[|d| - 1] as int - '0' as int)
  }

  function Pow10(n: nat): (p: nat)
    ensures p > 0
  {
    if n == 0 then 1 else 10 * Pow10(n - 1)
  }

  /**
   * `.str.replace(',', '.').cast(pl.Float64)` of a matched amount: the digits before
   * the comma are the whole part and those after it the fraction.
   */
  function AmountValue(t: string): (v: real)
    requires AmountShape(t)
    ensures v >= 0.0
  {
    var j := RunEnd(t, 0);
    assert 0 < j < |t| - 1 && t[j] == ',' && AllDigits(t[..j]) && AllDigits(t[j + 1..]) by {
      var c :| 0 < c < |t| - 1 && t[c] == ',' && AllDigits(t[..c]) && AllDigits(t[c + 1..]);
      assert forall m :: 0 <= m < c ==> IsDigit(t[m]) by {
        forall m | 0 <= m < c ensures IsDigit(t[m]) { assert t[m] == t[..c][m]; }
      }
      RunEndReaches(t, 0, c);
      assert !IsDigit(t[c]);
      assert j == c;
    }
    var frac := t[j + 1..];
    (DigitsValue(t[..j]) as real) + (DigitsValue(frac) as real) / (Pow10(|frac|) as real)
  }

  /**
   * The value of an amount is its whole part plus its fraction scaled by the
   * fraction's number of digits: `12,5` is 12.5 and `12,05` is 12.05.
   */
  lemma AmountValueOfParts(w: string, f: string)
    requires |w| > 0 && |f| > 0 && AllDigits(w) && AllDigits(f)
    ensures AmountShape(w + "," + f)
    ensures AmountValue(w + "," + f) == (DigitsValue(w) as real) + (DigitsValue(f) as real) / (Pow10(|f|) as real)
  {
    var t := w + "," + f;
    assert t[..|w|] == w && t[|w| + 1..] == f;
    assert AmountShape(t) by {
      assert t[|w|] == ',';
    }
    CommaEndsRun(w, f);
  }

  /** The run of digits at the head of `w,f` is `w`. */
  lemma CommaEndsRun(w: string, f: string)
    requires AllDigits(w)
    ensures RunEnd(w + "," + f, 0) == |w|
  {
    var t := w + "," + f;
    assert forall m :: 0 <= m < |w| ==> IsDigit(t[m]) by {
      forall m | 0 <= m < |w| ensures IsDigit(t[m]) { assert t[m] == w[m]; }
    }
    RunEndReaches(t, 0, |w|);
    assert t[|w|] == ',';
  }

  /** A cell `str.extract` accepts: text, or a missing value. */
  predicate Extractable(c: Cell) {
    c.Null? || c.Text?
  }

  /**
   * The `Valor` cell of one statement row after `.mul(-1)`: no match gives a
   * missing value; a value that is not text makes polars raise.
   */
  function ExtractAmount(c: Cell): (r: Result<Cell, Err>)
    ensures r.Success? <==> Extractable(c)
    ensures r.Success? ==> r.value.Null? || (r.value.Num? && r.value.x <= 0.0)
    ensures c.Text? ==> (r.value.Null? <==> FindAmount(c.s).None?)
    ensures c.Null? ==> r == Success(Null)
    ensures c.Text? && FindAmount(c.s).Some? ==>
      r == Success(Num(-AmountValue(c.s[FindAmount(c.s).value.0..FindAmount(c.s).value.1])))
  {
    match c
    case Null => Success(Null)
    case Text(s) =>
      (match FindAmount(s)
       case None => Success(Null)
       case Some((a, b)) => Success(Num(-AmountValue(s[a..b]))))
    case _ => Failure(InvalidOperation("str.extract"))
  }

  /** The `Valor` column after extraction: each cell converted; the first non-text cell makes the column fail. */
  function ExtractColumn(cells: seq<Cell>): (r: Result<seq<Cell>, Err>)
    ensures r.Success? <==> forall k :: 0 <= k < |cells| ==> Extractable(cells[k])
    ensures r.Success? ==> |r.value| == |cells|
    ensures r.Success? ==> forall k :: 0 <= k < |cells| ==> r.value[k] == ExtractAmount(cells[k]).value
  {
    if forall k :: 0 <= k < |cells| ==> Extractable(cells[k]) then
      Success(seq(|cells|, k requires 0 <= k < |cells| => ExtractAmount(cells[k]).value))
    else Failure(InvalidOperation("str.extract"))
  }

  /** With the dots left in, a grouped amount loses its thousands: the match starts after the last dot. */
  lemma GroupedAmountLosesThousands(s: string)
    requires s == "1.234,56"
    ensures ExtractAmount(Text(s)) == Success(Num(-234.56))
  {
    assert MatchAt(s, 0).None? by {
      assert RunEnd(s, 1) == 1;
    }
    assert MatchAt(s, 1).None?;
    assert RunEnd(s, 8) == 8 && RunEnd(s, 7) == 8 && RunEnd(s, 6) == 8;
    assert RunEnd(s, 5) == 5 && RunEnd(s, 4) == 5 && RunEnd(s, 3) == 5 && RunEnd(s, 2) == 5;
    assert MatchAt(s, 2) == Some(8);
    assert FindAmountFrom(s, 2) == Some((2, 8));
    assert FindAmountFrom(s, 0) == Some((2, 8));
    var t := s[2..8];
    assert t == "234,56";
    AmountOf234(t);
  }

  lemma AmountOf234(t: string)
    requires t == "234,56"
    ensures AmountShape(t) && AmountValue(t) == 234.56
  {
    assert t[..3] == "234" && t[4..] == "56";
    assert AmountShape(t) by {
      assert AllDigits(t[..3]) && AllDigits(t[4..]);
    }
    assert RunEnd(t, 0) == 3 by {
      assert RunEnd(t, 3) == 3 && RunEnd(t, 2) == 3 && RunEnd(t, 1) == 3;
    }
    assert DigitsValue("234") == 234 by {
      assert "234"[..2] == "23" && "23"[..1] == "2" && "2"[..0] == "";
    }
    assert DigitsValue("56") == 56 by {
      assert "56"[..1] == "5" && "5"[..0] == "";
    }
    assert Pow10(2) == 100;
  }

  // ---------------------------------------------------------------- statement to canonical

  /** `df.drop('Tipo').rename({'Lançamento': 'Descrição'})`. */
  function Relabel(f: Frame): (r: Result<Frame, Err>)
    requires Valid(f)
    ensures r.Success? <==> Has(f, "Tipo") && Has(f, "Lançamento") && !Has(f, "Descrição")
    ensures !Has(f, "Tipo") ==> r == Failure(ColumnNotFound(["Tipo"]))
    ensures r.Success? ==> Valid(r.value) && r.value.height == f.height
    ensures r.Success? ==> Get(r.value, "Descrição") == Some(Column("Descrição", Get(f, "Lançamento").value.cells))
    ensures r.Success? ==> !Has(r.value, "Tipo") && !Has(r.value, "Lançamento")
    ensures r.Success? ==> forall n :: n != "Tipo" && n != "Lançamento" && n != "Descrição" ==> Get(r.value, n) == Get(f, n)
  {
    var f1 :- Drop(f, "Tipo");
    Rename(f1, "Lançamento", "Descrição")
  }

  /** `.with_columns(Valor=<extracted amount>).with_columns(Saldo=0.0)`. */
  function WithAmounts(f: Frame): (r: Result<Frame, Err>)
    requires Valid(f)
    ensures r.Success? <==> Has(f, "Valor") && forall k :: 0 <= k < |Get(f, "Valor").value.cells| ==> Extractable(Get(f, "Valor").value.cells[k])
    ensures !Has(f, "Valor") ==> r == Failure(ColumnNotFound(["Valor"]))
    ensures r.Success? ==> Valid(r.value) && r.value.height == f.height
    ensures r.Success? ==> Get(r.value, "Saldo") == Some(Constant("Saldo", f.height, Num(0.0)))
    ensures r.Success? ==> Has(r.value, "Valor")
    ensures r.Success? ==> var v, w := Get(r.value, "Valor").value.cells, Get(f, "Valor").value.cells;
              |v| == |w| && forall k :: 0 <= k < |v| ==> v[k] == ExtractAmount(w[k]).value
    ensures r.Success? ==> forall n :: n != "Valor" && n != "Saldo" ==> Get(r.value, n) == Get(f, n)
  {
    if !Has(f, "Valor") then Failure(ColumnNotFound(["Valor"]))
    else
      var valor := Get(f, "Valor").value;
      var cells :- ExtractColumn(valor.cells);
      GetMember(f, valor);
      var f3 := WithColumn(f, Column("Valor", cells));
      Success(WithColumn(f3, Constant("Saldo", f.height, Num(0.0))))
  }

  /**
   * What the conversion needs of a table: the statement columns, no `Descrição`
   * that the renamed `Lançamento` would collide with, and a `Valor` column whose
   * cells are text or missing.
   */
  predicate StatementShaped(f: Frame) {
    Has(f, "Tipo") && Has(f, "Lançamento") && Has(f, "Valor") && Has(f, "Data") && Has(f, "Categoria")
    && !Has(f, "Descrição")
    && forall k :: 0 <= k < |Get(f, "Valor").value.cells| ==> Extractable(Get(f, "Valor").value.cells[k])
  }

  /**
   * The statement branch of `pre_process_csv`: drop `Tipo`, rename `Lançamento` to
   * `Descrição`, extract and negate the amount, add a zero `Saldo` and select the
   * canonical columns in order.
   */
  function StatementToCanonical(f: Frame): (r: Result<Frame, Err>)
    requires Valid(f)
    ensures r.Success? <==> StatementShaped(f)
    ensures !Has(f, "Tipo") ==> r == Failure(ColumnNotFound(["Tipo"]))
    ensures r.Success? ==> Valid(r.value) && Frames.Names(r.value) == FinanceNames && r.value.height == f.height
    ensures r.Success? ==> Get(r.value, "Data") == Get(f, "Data") && Get(r.value, "Categoria") == Get(f, "Categoria")
    ensures r.Success? ==> Get(r.value, "Saldo") == Some(Constant("Saldo", f.height, Num(0.0)))
  {
    match Relabel(f)
    case Failure(e) => Failure(e)
    case Success(f2) =>
      RelabelKeeps(f, f2);
      match WithAmounts(f2)
      case Failure(e) => Failure(e)
      case Success(f4) =>
        AmountsKeep(f2, f4);
        SelectCanonical(f4)
  }

  /** `.select('Data', 'Descrição', 'Valor', 'Saldo', 'Categoria')`: a missing column raises `ColumnNotFoundError`. */
  function SelectCanonical(f: Frame): (r: Result<Frame, Err>)
    requires Valid(f)
    ensures r.Success? <==> Has(f, "Data") && Has(f, "Descrição") && Has(f, "Valor") && Has(f, "Saldo") && Has(f, "Categoria")
    ensures r.Failure? ==> r.error == ColumnNotFound(Missing(f, FinanceNames))
    ensures r.Success? ==> Valid(r.value) && Frames.Names(r.value) == FinanceNames && r.value.height == f.height
    ensures r.Success? ==> Get(r.value, "Data") == Get(f, "Data") && Get(r.value, "Descrição") == Get(f, "Descrição")
    ensures r.Success? ==> Get(r.value, "Valor") == Get(f, "Valor") && Get(r.value, "Saldo") == Get(f, "Saldo")
    ensures r.Success? ==> Get(r.value, "Categoria") == Get(f, "Categoria")
  {
    match Select(f, FinanceNames)
    case Failure(missing) =>
      assert !(Has(f, "Data") && Has(f, "Descrição") && Has(f, "Valor") && Has(f, "Saldo") && Has(f, "Categoria")) by {
        var n :| n in FinanceNames && !Has(f, n);
      }
      Failure(ColumnNotFound(missing))
    case Success(g) =>
      assert Valid(g) && Get(g, "Data") == Get(f, "Data") && Get(g, "Descrição") == Get(f, "Descrição")
          && Get(g, "Valor") == Get(f, "Valor") && Get(g, "Saldo") == Get(f, "Saldo")
          && Get(g, "Categoria") == Get(f, "Categoria") by {
        FinanceTypes();
        GetSelected(f, FinanceNames, g);
      }
      assert Has(g, "Data") && Has(g, "Descrição") && Has(g, "Valor") && Has(g, "Saldo") && Has(g, "Categoria");
      Success(g)
  }

  /**
   * The cells of a converted statement: `Descrição` holds the `Lançamento` texts and
   * `Valor` the negated amount extracted from each `Valor` text, row by row.
   */
  lemma StatementCells(f: Frame, g: Frame)
    requires Valid(f) && StatementToCanonical(f) == Success(g)
    ensures Get(g, "Descrição") == Some(Column("Descrição", Get(f, "Lançamento").value.cells))
    ensures var v, w := Get(g, "Valor").value.cells, Get(f, "Valor").value.cells;
              |v| == |w| && forall k :: 0 <= k < |v| ==> v[k] == ExtractAmount(w[k]).value
  {
    StatementDescriptions(f, g);
    StatementAmounts(f, g);
  }

  /** The converted `Descrição` is the statement's `Lançamento`. */
  lemma StatementDescriptions(f: Frame, g: Frame)
    requires Valid(f) && StatementToCanonical(f) == Success(g)
    ensures Get(g, "Descrição") == Some(Column("Descrição", Get(f, "Lançamento").value.cells))
  {
    var f2 := Relabel(f).value;
    var f4 := WithAmounts(f2).value;
    assert Get(g, "Descrição") == Get(f4, "Descrição");
    AmountsKeep(f2, f4);
  }

  /** The converted `Valor` is the amount extracted from the statement's `Valor`, row by row. */
  lemma StatementAmounts(f: Frame, g: Frame)
    requires Valid(f) && StatementToCanonical(f) == Success(g)
    ensures Get(g, "Valor").Some? && Get(f, "Valor").Some?
    ensures var v, w := Get(g, "Valor").value.cells, Get(f, "Valor").value.cells;
              |v| == |w| && forall k :: 0 <= k < |v| ==> v[k] == ExtractAmount(w[k]).value
  {
    var f2 := Relabel(f).value;
    var f4 := WithAmounts(f2).value;
    assert Get(g, "Valor") == Get(f4, "Valor");
    RelabelKeeps(f, f2);
  }

  /** Relabelling leaves the date, amount and category columns alone. */
  lemma RelabelKeeps(f: Frame, f2: Frame)
    requires Valid(f) && Relabel(f) == Success(f2)
    ensures Get(f2, "Valor") == Get(f, "Valor") && Get(f2, "Data") == Get(f, "Data")
    ensures Get(f2, "Categoria") == Get(f, "Categoria")
  {
  }

  /** Extracting the amounts leaves the date, description and category columns alone. */
  lemma AmountsKeep(f: Frame, f4: Frame)
    requires Valid(f) && WithAmounts(f) == Success(f4)
    ensures Get(f4, "Data") == Get(f, "Data") && Get(f4, "Categoria") == Get(f, "Categoria")
    ensures Get(f4, "Descrição") == Get(f, "Descrição")
  {
  }

  /** A selection is valid, and each of its columns is the column of that name in the frame selected from. */
  lemma GetSelected(f: Frame, names: seq<string>, g: Frame)
    requires Valid(f) && DistinctNames(names) && Select(f, names) == Success(g)
    ensures Valid(g)
    ensures forall n :: n in names ==> Get(g, n) == Get(f, n)
  {
    SelectValid(f, names);
    forall n | n in names ensures Get(g, n) == Get(f, n) {
      var i :| 0 <= i < |names| && names[i] == n;
      GetAt(g, i);
    }
  }

  // ---------------------------------------------------------------- load_csv_df and pre_process_csv of models/preprocess.py

  /**
   * `load_csv_df(path, separator, schema)`: an explicit (non-empty) schema gives one
   * read with `decimal_comma=True`; otherwise the canonical schema is tried and the
   * statement schema only when that read raises `ComputeError`.
   */
  function LoadStatementCsv(env: Env, content: string, sep: char, schema: Option<Schema>): (r: Result<Frame, Err>)
    ensures schema.Some? && |schema.value| > 0 ==> r == env.readPolars(content, sep, schema.value, true)
    ensures (schema.None? || |schema.value| == 0) ==>
              var first := env.readPolars(content, sep, FinanceSchema(None), false);
              r == (if first == Failure(ComputeError) then env.readPolars(content, sep, FaturaSchema(None), false) else first)
  {
    if schema.Some? && |schema.value| > 0 then env.readPolars(content, sep, schema.value, true)
    else
      var attempts := [env.readPolars(content, sep, FinanceSchema(None), false),
                       env.readPolars(content, sep, FaturaSchema(None), false)];
      FallbackOfTwo(attempts[0], attempts[1]);
      Fallback(attempts)
  }

  /**
   * `pre_process_csv(path)` of the statement importer: a table with a `Tipo` column
   * is converted to the canonical layout; any other table gives `None`.
   */
  function PreProcessStatement(env: Env, content: string): (r: Result<Option<Frame>, Err>)
    requires WellBehaved(env)
    ensures LoadStatementCsv(env, content, ',', None).Failure? ==> r == Failure(LoadStatementCsv(env, content, ',', None).error)
    ensures r.Success? ==> LoadStatementCsv(env, content, ',', None).Success?
    ensures r.Success? && r.value.None? ==> !Has(LoadStatementCsv(env, content, ',', None).value, "Tipo")
    ensures r.Success? && r.value.Some? ==> Frames.Names(r.value.value) == FinanceNames
    ensures LoadStatementCsv(env, content, ',', None).Success? ==>
              var df := LoadStatementCsv(env, content, ',', None).value;
              Has(df, "Tipo") ==> r == (match StatementToCanonical(df) case Success(g) => Success(Some(g)) case Failure(e) => Failure(e))
    ensures LoadStatementCsv(env, content, ',', None).Success? && !Has(LoadStatementCsv(env, content, ',', None).value, "Tipo") ==>
              r == Success(None)
  {
    var df :- LoadStatementCsv(env, content, ',', None);
    if Has(df, "Tipo") then
      var g :- StatementToCanonical(df);
      Success(Some(g))
    else Success(None)
  }
}
