/**
 * The bank-export importer: separator detection, the repair of a file that the
 * canonical schema cannot read, the synthesis of missing canonical columns, and
 * `pre_process_csv`, which chains the read attempts and tags and filters the
 * rows of the table it obtains.
 */
module Ingest {
  import opened Wrappers
  import opened Text
  import opened Frames
  import opened Schema
  import opened Repair
  import opened Libs
  import opened Statement

  // ---------------------------------------------------------------- separator detection

  /** The separators tried, in order. */
  const Candidates: string := ",;"

  /** The first candidate that splits the header into more than one field. */
  function FirstSplitting(header: string, cands: string): (r: Option<char>)
    ensures r.Some? ==> r.value in cands && r.value in header
    ensures r.None? <==> forall k :: 0 <= k < |cands| ==> cands[k] !in header
    ensures |cands| > 0 && cands[0] in header ==> r == Some(cands[0])
  {
    if |cands| == 0 then None
    else
      SplitOnCharFields(header, cands[0]);
      if |SplitOn(header, [cands[0]])| > 1 then Some(cands[0])
      else
        var rest := FirstSplitting(header, cands[1..]);
        assert forall k :: 1 <= k < |cands| ==> cands[k] == cands[1..][k - 1];
        rest
  }

  /** The separator the header uses: a comma wins over a semicolon, and a header with neither has none. */
  function Separator(header: string): (r: Option<char>)
    ensures r == Some(',') <==> ',' in header
    ensures r == Some(';') <==> ',' !in header && ';' in header
    ensures r.None? <==> ',' !in header && ';' !in header
  {
    var r := FirstSplitting(header, Candidates);
    assert Candidates[0] == ',' && Candidates[1..] == [';'];
    assert FirstSplitting(header, [';'])  == if ';' in header then Some(';') else None by {
      assert [';'][1..] == [];
    }
    r
  }

  /** The `for sep in ',;'` loop: the first separator whose split gives more than one column. */
  method DetectSeparator(header: string) returns (r: Option<char>)
    ensures r == Separator(header)
  {
    assert Candidates[0] == ',' && Candidates[1] == ';';
    r := None;
    var i := 0;
    while i < |Candidates|
      invariant 0 <= i <= |Candidates| && r.None?
      invariant forall k :: 0 <= k < i ==> Candidates[k] !in header
    {
      var sep := Candidates[i];
      var columns := SplitOn(header, [sep]);
      SplitOnCharFields(header, sep);
      if |columns| > 1 {
        r := Some(sep);
        break;
      }
      i := i + 1;
    }
  }

  // ---------------------------------------------------------------- synthesis of missing columns

  /** The `lambda x: x['Descrição'].split(':')[0]` applied row by row; a value that is not text has no `split`. */
  function CategoryCells(descriptions: seq<Cell>): (r: Result<seq<Cell>, Err>)
    ensures r.Success? <==> forall k :: 0 <= k < |descriptions| ==> descriptions[k].Text?
    ensures r.Success? ==> |r.value| == |descriptions|
    ensures r.Success? ==> forall k :: 0 <= k < |descriptions| ==> r.value[k] == Text(FieldBefore(descriptions[k].s, ':'))
  {
    if |descriptions| == 0 then Success([])
    else if !descriptions[0].Text? then Failure(AttributeError("split"))
    else
      match CategoryCells(descriptions[1..])
      case Failure(e) =>
        assert exists k :: 1 <= k < |descriptions| && !descriptions[k].Text? by {
          var m :| 0 <= m < |descriptions[1..]| && !descriptions[1..][m].Text?;
          assert descriptions[m + 1] == descriptions[1..][m];
        }
        Failure(e)
      case Success(rest) =>
        assert forall k :: 1 <= k < |descriptions| ==> descriptions[k] == descriptions[1..][k - 1];
        Success([Text(FieldBefore(descriptions[0].s, ':'))] + rest)
  }

  /**
   * One pass of the loop over the canonical schema. A column the table has is
   * converted to the schema's type; a missing `Saldo` becomes zeros; a missing
   * `Categoria` is copied from `Histórico` or derived from `Descrição`; any other
   * missing column is left missing. Looking up a missing `Descrição` raises a
   * `KeyError` whose handler raises `KeyError('Categoria')` in turn. On a table
   * without rows (or without columns) pandas' `apply` never calls the lambda and
   * returns a copy of the whole table instead, which the assignment to the one
   * column `Categoria` accepts only when the table has exactly one column; with
   * any other number it raises `ValueError`, which the handler does not catch.
   */
  function SynthStep(env: Env, df: Frame, field: Field): (r: Result<Frame, Err>)
    requires KeepsLength(env) && Valid(df)
    ensures r.Success? ==> Valid(r.value) && r.value.height == df.height
    ensures r.Success? ==> (Has(r.value, field.0) <==> Has(df, field.0) || field.0 == "Saldo" || field.0 == "Categoria")
    ensures r.Success? ==> forall n :: n != field.0 ==> Get(r.value, n) == Get(df, n)
  {
    var (name, dtype) := field;
    if !Has(df, name) then
      if name == "Saldo" then Success(WithColumn(df, Constant("Saldo", df.height, Num(0.0))))
      else if name == "Categoria" then
        if Has(df, "Histórico") then
          var source := Get(df, "Histórico").value;
          GetMember(df, source);
          Success(WithColumn(df, Column("Categoria", source.cells)))
        else if df.height == 0 || |df.columns| == 0 then
          if |df.columns| == 1 then Success(WithColumn(df, Column("Categoria", df.columns[0].cells)))
          else Failure(ValueError("Categoria"))
        else if !Has(df, "Descrição") then Failure(KeyError(["Categoria"]))
        else
          var source := Get(df, "Descrição").value;
          GetMember(df, source);
          var cells :- CategoryCells(source.cells);
          Success(WithColumn(df, Column("Categoria", cells)))
      else Success(df)
    else
      var source := Get(df, name).value;
      GetMember(df, source);
      var cells :- env.coerce(source.cells, dtype);
      Success(WithColumn(df, Column(name, cells)))
  }

  /** A column the table has is replaced by its conversion, or the conversion's error stands. */
  lemma StepConverts(env: Env, df: Frame, field: Field)
    requires KeepsLength(env) && Valid(df) && Has(df, field.0)
    ensures match env.coerce(Get(df, field.0).value.cells, field.1)
              case Failure(e) => SynthStep(env, df, field) == Failure(e)
              case Success(cells) => SynthStep(env, df, field).Success? && Get(SynthStep(env, df, field).value, field.0) == Some(Column(field.0, cells))
  {
  }

  /** A missing `Saldo` becomes a column of zeros. */
  lemma StepAddsSaldo(env: Env, df: Frame, field: Field)
    requires KeepsLength(env) && Valid(df) && field.0 == "Saldo" && !Has(df, "Saldo")
    ensures SynthStep(env, df, field) == Success(WithColumn(df, Constant("Saldo", df.height, Num(0.0))))
  {
  }

  /** A missing `Categoria` is copied from `Histórico` when there is one. */
  lemma StepCopiesHistory(env: Env, df: Frame, field: Field)
    requires KeepsLength(env) && Valid(df) && field.0 == "Categoria" && !Has(df, "Categoria") && Has(df, "Histórico")
    ensures SynthStep(env, df, field).Success?
    ensures Get(SynthStep(env, df, field).value, "Categoria") == Some(Column("Categoria", Get(df, "Histórico").value.cells))
  {
  }

  /**
   * Otherwise, on a table with rows and columns, it is derived from `Descrição`,
   * whose absence raises `KeyError('Categoria')`.
   */
  lemma StepDerivesCategory(env: Env, df: Frame, field: Field)
    requires KeepsLength(env) && Valid(df) && field.0 == "Categoria" && !Has(df, "Categoria") && !Has(df, "Histórico")
    requires df.height > 0 && |df.columns| > 0
    ensures !Has(df, "Descrição") ==> SynthStep(env, df, field) == Failure(KeyError(["Categoria"]))
    ensures Has(df, "Descrição") ==>
              SynthStep(env, df, field) == (match CategoryCells(Get(df, "Descrição").value.cells)
                    case Failure(e) => Failure(e)
                    case Success(cells) => Success(WithColumn(df, Column("Categoria", cells))))
  {
  }

  /**
   * On a table without rows or without columns the derivation fails with
   * `ValueError` unless the table has exactly one column, and then (the table
   * having no rows) `Categoria` is added empty.
   */
  lemma StepEmptyCategory(env: Env, df: Frame, field: Field)
    requires KeepsLength(env) && Valid(df) && field.0 == "Categoria" && !Has(df, "Categoria") && !Has(df, "Histórico")
    requires df.height == 0 || |df.columns| == 0
    ensures SynthStep(env, df, field).Success? <==> |df.columns| == 1
    ensures |df.columns| != 1 ==> SynthStep(env, df, field) == Failure(ValueError("Categoria"))
    ensures |df.columns| == 1 ==> Get(SynthStep(env, df, field).value, "Categoria") == Some(Column("Categoria", []))
  {
  }

  /** Each row's `Categoria` is its `Descrição` text up to the first colon. */
  predicate CategoryDerived(r: Frame) {
    Get(r, "Descrição").Some? && Get(r, "Categoria").Some? &&
    var desc, cat := Get(r, "Descrição").value.cells, Get(r, "Categoria").value.cells;
    |desc| == |cat| && forall k :: 0 <= k < |cat| ==> desc[k].Text? && cat[k] == Text(FieldBefore(desc[k].s, ':'))
  }

  /** A derived `Categoria` holds, row by row, the `Descrição` text up to the first colon. */
  lemma StepCategoryCells(env: Env, df: Frame, field: Field)
    requires KeepsLength(env) && Valid(df) && field.0 == "Categoria" && !Has(df, "Categoria") && !Has(df, "Histórico")
    requires SynthStep(env, df, field).Success?
    ensures Has(df, "Descrição") ==> CategoryDerived(SynthStep(env, df, field).value)
    ensures !Has(df, "Descrição") ==> df.height == 0 && Get(SynthStep(env, df, field).value, "Categoria") == Some(Column("Categoria", []))
  {
    var r := SynthStep(env, df, field).value;
    if df.height == 0 || |df.columns| == 0 {
      StepEmptyCategory(env, df, field);
      if Has(df, "Descrição") {
        GetAt(df, 0);
        assert Get(r, "Descrição") == Get(df, "Descrição");
      }
    } else {
      StepDerivesCategory(env, df, field);
      if Has(df, "Descrição") {
        var desc := Get(df, "Descrição").value.cells;
        var cells := CategoryCells(desc).value;
        assert r == WithColumn(df, Column("Categoria", cells));
        assert Get(r, "Descrição") == Get(df, "Descrição");
      }
    }
  }

  /** Any other missing column is left missing. */
  lemma StepSkips(env: Env, df: Frame, field: Field)
    requires KeepsLength(env) && Valid(df) && !Has(df, field.0) && field.0 != "Saldo" && field.0 != "Categoria"
    ensures SynthStep(env, df, field) == Success(df)
  {
  }

  /** The loop over a list of schema fields, in order: the first failing pass ends it. */
  function SynthOver(env: Env, df: Frame, fields: Schema): (r: Result<Frame, Err>)
    requires KeepsLength(env) && Valid(df)
    ensures r.Success? ==> Valid(r.value) && r.value.height == df.height
    decreases |fields|
  {
    if |fields| == 0 then Success(df)
    else
      var next :- SynthStep(env, df, fields[0]);
      SynthOver(env, next, fields[1..])
  }

  /** The `for col_name, col_type in FinanceSchema().items()` loop, updating the table in place. */
  method SynthesizeColumns(env: Env, df0: Frame) returns (r: Result<Frame, Err>)
    requires KeepsLength(env) && Valid(df0)
    ensures r == SynthOver(env, df0, FinanceDefault)
  {
    var df := df0;
    var i := 0;
    while i < |FinanceDefault|
      invariant 0 <= i <= |FinanceDefault| && Valid(df)
      invariant SynthOver(env, df, FinanceDefault[i..]) == SynthOver(env, df0, FinanceDefault)
    {
      assert FinanceDefault[i..][0] == FinanceDefault[i] && FinanceDefault[i..][1..] == FinanceDefault[i + 1..];
      var step := SynthStep(env, df, FinanceDefault[i]);
      if step.Failure? {
        return Failure(step.error);
      }
      df := step.value;
      i := i + 1;
    }
    return Success(df);
  }

  /** No field of the list is called `n`. */
  predicate Skips(fields: Schema, n: string) {
    forall k :: 0 <= k < |fields| ==> fields[k].0 != n
  }

  /** Field `k` is the only one called `n`. */
  predicate OnlyAt(fields: Schema, n: string, k: nat) {
    k < |fields| && fields[k].0 == n && forall m :: 0 <= m < |fields| && m != k ==> fields[m].0 != n
  }

  /** Dropping the first field keeps the only other field called `n`. */
  lemma OnlyAtTail(fields: Schema, n: string, k: nat)
    requires OnlyAt(fields, n, k) && k > 0
    ensures OnlyAt(fields[1..], n, k - 1)
  {
    forall m | 0 <= m < |fields| - 1 && m != k - 1 ensures fields[1..][m].0 != n {
      assert fields[1..][m] == fields[m + 1];
    }
  }

  /** A column no field of the loop is called by comes out of it exactly as it was. */
  lemma {:induction false} SynthKeeps(env: Env, df: Frame, fields: Schema, n: string)
    requires KeepsLength(env) && Valid(df) && Skips(fields, n)
    requires SynthOver(env, df, fields).Success?
    ensures Get(SynthOver(env, df, fields).value, n) == Get(df, n)
    decreases |fields|
  {
    if |fields| > 0 {
      var next := SynthStep(env, df, fields[0]).value;
      assert Skips(fields[1..], n) by {
        forall k | 0 <= k < |fields| - 1 ensures fields[1..][k].0 != n {
          assert fields[1..][k] == fields[k + 1];
        }
      }
      SynthKeeps(env, next, fields[1..], n);
    }
  }

  /** The loop removes no column. */
  lemma {:induction false} SynthKeepsPresent(env: Env, df: Frame, fields: Schema, n: string)
    requires KeepsLength(env) && Valid(df) && Has(df, n)
    requires SynthOver(env, df, fields).Success?
    ensures Has(SynthOver(env, df, fields).value, n)
    decreases |fields|
  {
    if |fields| > 0 {
      var next := SynthStep(env, df, fields[0]).value;
      assert Has(next, n) by {
        if fields[0].0 != n {
          assert Get(next, n) == Get(df, n);
        }
      }
      SynthKeepsPresent(env, next, fields[1..], n);
    }
  }

  /** After the loop, `Saldo` and `Categoria` exist whenever the loop has a field of that name. */
  lemma {:induction false} SynthAdds(env: Env, df: Frame, fields: Schema, n: string, k: nat)
    requires KeepsLength(env) && Valid(df) && k < |fields| && fields[k].0 == n
    requires SynthOver(env, df, fields).Success?
    requires n == "Saldo" || n == "Categoria"
    ensures Has(SynthOver(env, df, fields).value, n)
    decreases |fields|
  {
    var next := SynthStep(env, df, fields[0]).value;
    if k == 0 {
      SynthKeepsPresent(env, next, fields[1..], n);
    } else {
      assert fields[1..][k - 1] == fields[k];
      SynthAdds(env, next, fields[1..], n, k - 1);
    }
  }

  /** Every other column exists after the loop exactly when it did before: the loop never adds `Data`, `Descrição` or `Valor`. */
  lemma {:induction false} SynthAddsNoOther(env: Env, df: Frame, fields: Schema, n: string)
    requires KeepsLength(env) && Valid(df)
    requires SynthOver(env, df, fields).Success?
    requires n != "Saldo" && n != "Categoria"
    ensures Has(SynthOver(env, df, fields).value, n) <==> Has(df, n)
    decreases |fields|
  {
    if |fields| > 0 {
      var next := SynthStep(env, df, fields[0]).value;
      assert Has(next, n) <==> Has(df, n) by {
        if fields[0].0 != n {
          assert Get(next, n) == Get(df, n);
        }
      }
      SynthAddsNoOther(env, next, fields[1..], n);
    }
  }

  /** A missing `Saldo` is added as a column of zeros by the one field of that name. */
  lemma {:induction false} SynthSaldo(env: Env, df: Frame, fields: Schema, k: nat)
    requires KeepsLength(env) && Valid(df) && OnlyAt(fields, "Saldo", k)
    requires SynthOver(env, df, fields).Success?
    requires !Has(df, "Saldo")
    ensures Get(SynthOver(env, df, fields).value, "Saldo") == Some(Constant("Saldo", df.height, Num(0.0)))
    decreases |fields|
  {
    var next := SynthStep(env, df, fields[0]).value;
    if k == 0 {
      StepAddsSaldo(env, df, fields[0]);
      assert Skips(fields[1..], "Saldo") by {
        forall m | 0 <= m < |fields| - 1 ensures fields[1..][m].0 != "Saldo" {
          assert fields[1..][m] == fields[m + 1];
        }
      }
      SynthKeeps(env, next, fields[1..], "Saldo");
    } else {
      assert Get(next, "Saldo") == Get(df, "Saldo");
      OnlyAtTail(fields, "Saldo", k);
      SynthSaldo(env, next, fields[1..], k - 1);
    }
  }

  /** A missing `Categoria` is a copy of `Histórico` when the table has one and the loop does not touch it. */
  lemma {:induction false} SynthCategoryFromHistory(env: Env, df: Frame, fields: Schema, k: nat)
    requires KeepsLength(env) && Valid(df) && OnlyAt(fields, "Categoria", k) && Skips(fields, "Histórico")
    requires SynthOver(env, df, fields).Success?
    requires !Has(df, "Categoria") && Has(df, "Histórico")
    ensures Get(SynthOver(env, df, fields).value, "Categoria") == Some(Column("Categoria", Get(df, "Histórico").value.cells))
    decreases |fields|
  {
    var next := SynthStep(env, df, fields[0]).value;
    assert Skips(fields[1..], "Histórico") by {
      forall m | 0 <= m < |fields| - 1 ensures fields[1..][m].0 != "Histórico" {
        assert fields[1..][m] == fields[m + 1];
      }
    }
    if k == 0 {
      StepCopiesHistory(env, df, fields[0]);
      assert Skips(fields[1..], "Categoria") by {
        forall m | 0 <= m < |fields| - 1 ensures fields[1..][m].0 != "Categoria" {
          assert fields[1..][m] == fields[m + 1];
        }
      }
      SynthKeeps(env, next, fields[1..], "Categoria");
    } else {
      assert Get(next, "Categoria") == Get(df, "Categoria");
      assert Get(next, "Histórico") == Get(df, "Histórico");
      OnlyAtTail(fields, "Categoria", k);
      SynthCategoryFromHistory(env, next, fields[1..], k - 1);
    }
  }

  /**
   * With neither `Categoria` nor `Histórico`, and `Categoria` the last field, each
   * row's category is the text of its (converted) `Descrição` up to the first colon.
   */
  lemma {:induction false} SynthCategoryFromDescription(env: Env, df: Frame, fields: Schema)
    requires KeepsLength(env) && Valid(df) && |fields| > 0 && OnlyAt(fields, "Categoria", |fields| - 1) && Skips(fields, "Histórico")
    requires SynthOver(env, df, fields).Success?
    requires !Has(df, "Categoria") && !Has(df, "Histórico")
    ensures Has(df, "Descrição") ==> CategoryDerived(SynthOver(env, df, fields).value)
    ensures !Has(df, "Descrição") ==> df.height == 0 && Get(SynthOver(env, df, fields).value, "Categoria") == Some(Column("Categoria", []))
    decreases |fields|
  {
    var next := SynthStep(env, df, fields[0]).value;
    if |fields| == 1 {
      StepCategoryCells(env, df, fields[0]);
    } else {
      assert Get(next, "Categoria") == Get(df, "Categoria");
      assert Get(next, "Histórico") == Get(df, "Histórico");
      assert Has(next, "Descrição") <==> Has(df, "Descrição") by {
        if fields[0].0 != "Descrição" {
          assert Get(next, "Descrição") == Get(df, "Descrição");
        }
      }
      OnlyAtTail(fields, "Categoria", |fields| - 1);
      assert Skips(fields[1..], "Histórico") by {
        forall m | 0 <= m < |fields| - 1 ensures fields[1..][m].0 != "Histórico" {
          assert fields[1..][m] == fields[m + 1];
        }
      }
      SynthCategoryFromDescription(env, next, fields[1..]);
    }
  }

  /** With none of `Categoria`, `Histórico` and `Descrição`, a loop over a table with rows that reaches a `Categoria` field fails. */
  lemma {:induction false} SynthNeedsDescription(env: Env, df: Frame, fields: Schema, k: nat)
    requires KeepsLength(env) && Valid(df) && k < |fields| && fields[k].0 == "Categoria" && Skips(fields[..k], "Categoria")
    requires Skips(fields, "Histórico")
    requires !Has(df, "Categoria") && !Has(df, "Histórico") && !Has(df, "Descrição")
    ensures df.height > 0 ==> SynthOver(env, df, fields).Failure?
    decreases |fields|
  {
    if k == 0 {
      if df.height > 0 && |df.columns| == 0 {
        StepEmptyCategory(env, df, fields[0]);
      } else if df.height > 0 {
        StepDerivesCategory(env, df, fields[0]);
      }
    } else if SynthStep(env, df, fields[0]).Success? {
      var next := SynthStep(env, df, fields[0]).value;
      assert fields[..k][0] == fields[0];
      assert Get(next, "Categoria") == Get(df, "Categoria");
      assert Get(next, "Histórico") == Get(df, "Histórico");
      assert !Has(next, "Descrição") by {
        if fields[0].0 != "Descrição" {
          assert Get(next, "Descrição") == Get(df, "Descrição");
        }
      }
      assert Skips(fields[1..][..k - 1], "Categoria") && Skips(fields[1..], "Histórico") by {
        var before := fields[1..][..k - 1];
        forall m | 0 <= m < k - 1 ensures before[m].0 != "Categoria" {
          assert before[m] == fields[..k][m + 1];
        }
        forall m | 0 <= m < |fields| - 1 ensures fields[1..][m].0 != "Histórico" {
          assert fields[1..][m] == fields[m + 1];
        }
      }
      assert fields[1..][k - 1] == fields[k];
      SynthNeedsDescription(env, next, fields[1..], k - 1);
    }
  }

  /** Two columns of different names make a table of at least two columns. */
  lemma TwoColumns(df: Frame, a: string, b: string)
    requires Has(df, a) && Has(df, b) && a != b
    ensures |df.columns| >= 2
  {
    var i :| 0 <= i < |Frames.Names(df)| && Frames.Names(df)[i] == a;
    var j :| 0 <= j < |Frames.Names(df)| && Frames.Names(df)[j] == b;
    assert i != j;
  }

  /**
   * A table without rows that has `Descrição`, and `Saldo` by the time of the
   * `Categoria` pass, makes the loop fail: that pass assigns a copy of a table of
   * at least two columns to one column.
   */
  lemma {:induction false} SynthEmptyFails(env: Env, df: Frame, fields: Schema, k: nat)
    requires KeepsLength(env) && Valid(df) && df.height == 0
    requires k < |fields| && fields[k].0 == "Categoria" && Skips(fields[..k], "Categoria") && Skips(fields, "Histórico")
    requires !Has(df, "Categoria") && !Has(df, "Histórico") && Has(df, "Descrição")
    requires Has(df, "Saldo") || !Skips(fields[..k], "Saldo")
    ensures SynthOver(env, df, fields).Failure?
    decreases |fields|
  {
    if k == 0 {
      TwoColumns(df, "Descrição", "Saldo");
      StepEmptyCategory(env, df, fields[0]);
    } else if SynthStep(env, df, fields[0]).Success? {
      var next := SynthStep(env, df, fields[0]).value;
      assert fields[..k][0] == fields[0];
      assert Get(next, "Categoria") == Get(df, "Categoria");
      assert Get(next, "Histórico") == Get(df, "Histórico");
      assert Has(next, "Descrição") by {
        if fields[0].0 != "Descrição" {
          assert Get(next, "Descrição") == Get(df, "Descrição");
        }
      }
      SkipsTail(fields, k, "Categoria", "Histórico");
      assert Has(next, "Saldo") || !Skips(fields[1..][..k - 1], "Saldo") by {
        if fields[0].0 == "Saldo" {
        } else if Has(df, "Saldo") {
          assert Get(next, "Saldo") == Get(df, "Saldo");
        } else {
          MentionsTail(fields, k, "Saldo");
        }
      }
      assert fields[1..][k - 1] == fields[k];
      SynthEmptyFails(env, next, fields[1..], k - 1);
    }
  }

  /** The fields after the first keep skipping `n` before position `k`, and `h` everywhere. */
  lemma SkipsTail(fields: Schema, k: nat, n: string, h: string)
    requires 0 < k <= |fields| && Skips(fields[..k], n) && Skips(fields, h)
    ensures Skips(fields[1..][..k - 1], n) && Skips(fields[1..], h)
  {
    var before := fields[1..][..k - 1];
    forall m | 0 <= m < k - 1 ensures before[m].0 != n {
      assert before[m] == fields[..k][m + 1];
    }
    forall m | 0 <= m < |fields| - 1 ensures fields[1..][m].0 != h {
      assert fields[1..][m] == fields[m + 1];
    }
  }

  /** A field called `n` before position `k`, other than the first, is still there after the first. */
  lemma MentionsTail(fields: Schema, k: nat, n: string)
    requires 0 < k <= |fields| && !Skips(fields[..k], n) && fields[0].0 != n
    ensures !Skips(fields[1..][..k - 1], n)
  {
    var m :| 0 <= m < k && fields[..k][m].0 == n;
    assert m > 0 && fields[1..][..k - 1][m - 1] == fields[..k][m];
  }

  /**
   * Over the canonical schema, a table read without rows that has `Descrição` but
   * neither `Categoria` nor `Histórico` never gets through the loop.
   */
  lemma SynthEmptyTable(env: Env, df: Frame)
    requires KeepsLength(env) && Valid(df) && df.height == 0
    requires !Has(df, "Categoria") && !Has(df, "Histórico") && Has(df, "Descrição")
    ensures SynthOver(env, df, FinanceDefault).Failure?
  {
    FinanceFields();
    assert FinanceDefault[..4][3].0 == "Saldo";
    SynthEmptyFails(env, df, FinanceDefault, 4);
  }

  /** Where the canonical schema puts `Saldo` and `Categoria`, and that it has no `Histórico`. */
  lemma FinanceFields()
    ensures OnlyAt(FinanceDefault, "Saldo", 3)
    ensures OnlyAt(FinanceDefault, "Categoria", 4)
    ensures Skips(FinanceDefault, "Histórico")
    ensures Skips(FinanceDefault[..4], "Categoria")
  {
  }

  /**
   * The loop over the canonical schema makes the canonical selection possible
   * exactly when the table itself brought `Data`, `Descrição` and `Valor`, the
   * three columns a user must supply.
   */
  lemma SynthThenSelect(env: Env, df: Frame)
    requires KeepsLength(env) && Valid(df)
    requires SynthOver(env, df, FinanceDefault).Success?
    ensures Select(SynthOver(env, df, FinanceDefault).value, FinanceNames).Success? <==>
              Has(df, "Data") && Has(df, "Descrição") && Has(df, "Valor")
  {
    var r := SynthOver(env, df, FinanceDefault).value;
    FinanceFields();
    SynthAdds(env, df, FinanceDefault, "Saldo", 3);
    SynthAdds(env, df, FinanceDefault, "Categoria", 4);
    SynthAddsNoOther(env, df, FinanceDefault, "Data");
    SynthAddsNoOther(env, df, FinanceDefault, "Descrição");
    SynthAddsNoOther(env, df, FinanceDefault, "Valor");
    assert Select(r, FinanceNames).Success? <==> SelectCanonical(r).Success?;
  }

  // ---------------------------------------------------------------- check_integrity_with_finance

  /**
   * `check_integrity_with_finance(data)`: split off the header and rename its date
   * column, detect the separator, repair the text (`handle_tmp_file`), read it with
   * pandas, synthesize the missing columns, reorder them, and write the result
   * back. The result is the text of the temporary file and the separator.
   */
  function CheckIntegrity(env: Env, data: string): (r: Result<(string, char), Err>)
    requires WellBehaved(env)
    ensures '\n' !in data ==> r == Failure(UnpackError(1))
    ensures '\n' in data ==>
              var header := ReplaceAll(SplitOnce(data, '\n').value.0, OldDateHeader, DateHeader);
              (Separator(header).None? ==> r == Failure(NotParsed))
              && (r.Success? ==> Some(r.value.1) == Separator(header))
    ensures r.Success? ==> r.value.1 == ',' || r.value.1 == ';'
    ensures r.Success? ==> env.readPandas(RepairText(RenameHeader(data).value), r.value.1).Success?
    ensures r.Success? ==>
              var df := env.readPandas(RepairText(RenameHeader(data).value), r.value.1).value;
              var full := SynthOver(env, df, FinanceDefault);
              full.Success? && Select(full.value, FinanceNames).Success?
              && var g := Select(full.value, FinanceNames).value;
                 Valid(g) && Frames.Names(g) == FinanceNames && r.value.0 == env.writeCsv(g, r.value.1)
  {
    match SplitOnce(data, '\n')
    case None => Failure(UnpackError(1))
    case Some((line, body)) =>
      var header := ReplaceAll(line, OldDateHeader, DateHeader);
      var text := header + "\n" + body;
      assert RenameHeader(data) == Success(text);
      match Separator(header)
      case None => Failure(NotParsed)
      case Some(sep) =>
        var df :- env.readPandas(RepairText(text), sep);
        var full :- SynthOver(env, df, FinanceDefault);
        match Select(full, FinanceNames)
        case Failure(missing) => Failure(KeyError(missing))
        case Success(g) =>
          FinanceTypes();
          SelectValid(full, FinanceNames);
          Success((env.writeCsv(g, sep), sep))
  }

  /** A header the importer cannot split fails before anything is read. */
  lemma CheckIntegrityNeedsSeparator(env: Env, header: string, body: string)
    requires WellBehaved(env) && '\n' !in header && ',' !in header && ';' !in header
    requires !Contains(header, OldDateHeader)
    ensures CheckIntegrity(env, header + "\n" + body) == Failure(NotParsed)
  {
    SplitOnceAt(header + "\n" + body, '\n', header, body);
    ReplaceAllAbsent(header, OldDateHeader, DateHeader);
  }

  /**
   * When the repaired text reads into a table with `Data`, `Descrição` and `Valor`
   * and every conversion succeeds, the check succeeds; without one of those
   * columns it fails with a `KeyError`.
   */
  lemma CheckIntegrityColumns(env: Env, data: string, sep: char, df: Frame)
    requires WellBehaved(env) && '\n' in data
    requires Separator(ReplaceAll(SplitOnce(data, '\n').value.0, OldDateHeader, DateHeader)) == Some(sep)
    requires env.readPandas(RepairText(RenameHeader(data).value), sep) == Success(df)
    requires SynthOver(env, df, FinanceDefault).Success?
    ensures CheckIntegrity(env, data).Success? <==> Has(df, "Data") && Has(df, "Descrição") && Has(df, "Valor")
    ensures CheckIntegrity(env, data).Failure? ==> CheckIntegrity(env, data).error.KeyError?
  {
    SynthThenSelect(env, df);
    var line := SplitOnce(data, '\n').value.0;
    var body := SplitOnce(data, '\n').value.1;
    assert RenameHeader(data) == Success(ReplaceAll(line, OldDateHeader, DateHeader) + "\n" + body);
  }

  /**
   * A file whose repaired text reads into a table without rows, with `Descrição`
   * but neither `Categoria` nor `Histórico`, fails the check.
   */
  lemma CheckIntegrityEmpty(env: Env, data: string, sep: char, df: Frame)
    requires WellBehaved(env) && '\n' in data
    requires Separator(ReplaceAll(SplitOnce(data, '\n').value.0, OldDateHeader, DateHeader)) == Some(sep)
    requires env.readPandas(RepairText(RenameHeader(data).value), sep) == Success(df)
    requires df.height == 0 && !Has(df, "Categoria") && !Has(df, "Histórico") && Has(df, "Descrição")
    ensures CheckIntegrity(env, data).Failure?
  {
    SynthEmptyTable(env, df);
    var line := SplitOnce(data, '\n').value.0;
    var body := SplitOnce(data, '\n').value.1;
    assert RenameHeader(data) == Success(ReplaceAll(line, OldDateHeader, DateHeader) + "\n" + body);
  }

  // ---------------------------------------------------------------- pre_process_csv

  /**
   * `load_csv_df(path, separator, schema, decimal_comma)`: a missing or empty
   * schema falls back to the canonical one.
   */
  function LoadCsvDf(env: Env, content: string, sep: char, schema: Option<Schema>, decimalComma: bool): (r: Result<Frame, Err>)
    ensures schema.Some? && |schema.value| > 0 ==> r == env.readPolars(content, sep, schema.value, decimalComma)
    ensures schema.None? || |schema.value| == 0 ==> r == env.readPolars(content, sep, FinanceSchema(None), decimalComma)
  {
    if schema.Some? && |schema.value| > 0 then env.readPolars(content, sep, schema.value, decimalComma)
    else env.readPolars(content, sep, FinanceSchema(None), decimalComma)
  }

  /** The excluded automatic card payment. */
  const CardPayment: string := "Pagamento efetuado: \"Debito Automatico Fatura Cartao Inter\""
  /** The column naming the institution a file came from. */
  const BankColumn: string := "Banco/Corretora"

  /**
   * A row survives `pl.col('Descrição') != <card payment>`: a missing description
   * compares to null, which the filter drops, and the card payment is dropped.
   */
  predicate Kept(c: Cell) {
    !c.Null? && c != Text(CardPayment)
  }

  function KeepMask(cells: seq<Cell>): (keep: seq<bool>)
    ensures |keep| == |cells|
    ensures forall k :: 0 <= k < |cells| ==> keep[k] == Kept(cells[k])
  {
    seq(|cells|, k requires 0 <= k < |cells| => Kept(cells[k]))
  }

  /** The cells that pass the filter, in order. */
  function Surviving(cells: seq<Cell>): (r: seq<Cell>)
    ensures forall c :: c in r <==> c in cells && Kept(c)
  {
    if |cells| == 0 then []
    else
      var init := Surviving(cells[..|cells| - 1]);
      assert cells == cells[..|cells| - 1] + [cells[|cells| - 1]];
      init + (if Kept(cells[|cells| - 1]) then [cells[|cells| - 1]] else [])
  }

  /** The filter keeps exactly the rows it flags. */
  lemma {:induction false} PickSurviving(cells: seq<Cell>)
    ensures Pick(cells, KeepMask(cells)) == Surviving(cells)
    decreases |cells|
  {
    if |cells| > 0 {
      var init := cells[..|cells| - 1];
      assert KeepMask(cells)[..|cells| - 1] == KeepMask(init);
      PickSurviving(init);
    }
  }

  /** A column of a filtered table is the column before filtering, restricted to the kept rows. */
  lemma GetFiltered(f: Frame, keep: seq<bool>, n: string)
    requires Valid(f) && |keep| == f.height && Has(f, n)
    ensures Get(FilterRows(f, keep), n) == Some(Column(n, Pick(Get(f, n).value.cells, keep)))
  {
    var i := IndexOf(f, n).value;
    var r := FilterRows(f, keep);
    GetAt(f, i);
    GetAt(r, i);
  }

  /** The rows of a column kept by a mask are among the column's rows. */
  lemma {:induction false} PickWithin(cells: seq<Cell>, keep: seq<bool>)
    requires |keep| == |cells|
    ensures forall c :: c in Pick(cells, keep) ==> c in cells
    decreases |cells|
  {
    if |cells| > 0 {
      PickWithin(cells[..|cells| - 1], keep[..|keep| - 1]);
    }
  }

  /**
   * `df.with_columns(pl.lit(bank).alias('Banco/Corretora'))` followed by the filter
   * on `Descrição`: every row is tagged with the bank, and only the rows with a
   * description other than the card payment remain.
   */
  function TagAndFilter(df: Frame, bank: string): (r: Result<Frame, Err>)
    requires Valid(df)
    ensures r.Failure? <==> !Has(df, "Descrição")
    ensures r.Failure? ==> r.error == ColumnNotFound(["Descrição"])
    ensures r.Success? ==> Valid(r.value) && Has(r.value, BankColumn)
    ensures r.Success? ==> forall n :: Has(r.value, n) <==> n == BankColumn || Has(df, n)
    ensures r.Success? ==> Frames.Names(r.value) == if Has(df, BankColumn) then Frames.Names(df) else Frames.Names(df) + [BankColumn]
    ensures r.Success? ==> forall c :: c in Get(r.value, BankColumn).value.cells ==> c == Text(bank)
    ensures r.Success? ==> Get(r.value, "Descrição").Some?
    ensures r.Success? ==> Get(r.value, "Descrição").value.cells == Surviving(Get(df, "Descrição").value.cells)
    ensures r.Success? ==> r.value.height == |Surviving(Get(df, "Descrição").value.cells)|
    ensures r.Success? ==> forall n :: n != BankColumn && Has(df, n) ==>
              Get(r.value, n) == Some(Column(n, Pick(Get(df, n).value.cells, KeepMask(Get(df, "Descrição").value.cells))))
  {
    if !Has(df, "Descrição") then Failure(ColumnNotFound(["Descrição"]))
    else
      TaggedCells(df, bank);
      TaggedNames(df, bank);
      Success(Tagged(df, bank))
  }

  /** The bank column added, then the rows `KeepMask` rejects filtered out. */
  function Tagged(df: Frame, bank: string): Frame
    requires Valid(df) && Has(df, "Descrição")
  {
    var tagged := WithColumn(df, Constant(BankColumn, df.height, Text(bank)));
    FilterRows(tagged, KeepMask(Get(df, "Descrição").value.cells))
  }

  /** The filtered table's columns are the input's, then the bank column when it is new. */
  lemma TaggedNames(df: Frame, bank: string)
    requires Valid(df) && Has(df, "Descrição")
    ensures Valid(Tagged(df, bank))
    ensures Frames.Names(Tagged(df, bank)) == if Has(df, BankColumn) then Frames.Names(df) else Frames.Names(df) + [BankColumn]
    ensures forall n :: Has(Tagged(df, bank), n) <==> n == BankColumn || Has(df, n)
  {
    var tagged := WithColumn(df, Constant(BankColumn, df.height, Text(bank)));
    var names := Frames.Names(tagged);
    assert Frames.Names(Tagged(df, bank)) == names;
    assert Has(tagged, BankColumn);
    forall n ensures n in names <==> n == BankColumn || Has(df, n) {
      if n != BankColumn {
        assert Get(tagged, n) == Get(df, n);
      }
    }
  }

  /** The filtered table's cells: the bank on every row, the kept descriptions, and every other column picked by the same mask. */
  lemma TaggedCells(df: Frame, bank: string)
    requires Valid(df) && Has(df, "Descrição")
    ensures Valid(Tagged(df, bank)) && Has(Tagged(df, bank), BankColumn)
    ensures forall c :: c in Get(Tagged(df, bank), BankColumn).value.cells ==> c == Text(bank)
    ensures Get(Tagged(df, bank), "Descrição").Some?
    ensures Get(Tagged(df, bank), "Descrição").value.cells == Surviving(Get(df, "Descrição").value.cells)
    ensures Tagged(df, bank).height == |Surviving(Get(df, "Descrição").value.cells)|
    ensures forall n :: n != BankColumn && Has(df, n) ==>
              Get(Tagged(df, bank), n) == Some(Column(n, Pick(Get(df, n).value.cells, KeepMask(Get(df, "Descrição").value.cells))))
  {
    var tagged := WithColumn(df, Constant(BankColumn, df.height, Text(bank)));
    var desc := Get(df, "Descrição").value;
    GetMember(df, desc);
    var keep := KeepMask(desc.cells);
    var r := FilterRows(tagged, keep);
    GetFiltered(tagged, keep, BankColumn);
    PickWithin(Constant(BankColumn, df.height, Text(bank)).cells, keep);
    GetFiltered(tagged, keep, "Descrição");
    PickSurviving(desc.cells);
    forall n | n != BankColumn && Has(df, n)
      ensures Get(r, n) == Some(Column(n, Pick(Get(df, n).value.cells, keep)))
    {
      GetFiltered(tagged, keep, n);
    }
  }

  /**
   * The second attempt of `pre_process_csv`: `load_csv_df` with the canonical
   * schema, and the statement conversion when the table has a `Tipo` column.
   */
  function SecondAttempt(env: Env, content: string, sep: char): (r: Result<Frame, Err>)
    requires WellBehaved(env)
    ensures r.Success? ==> Valid(r.value)
    ensures LoadCsvDf(env, content, sep, Some(FinanceSchema(None)), false).Failure? ==>
              r == LoadCsvDf(env, content, sep, Some(FinanceSchema(None)), false)
  {
    var df :- LoadCsvDf(env, content, sep, Some(FinanceSchema(None)), false);
    if Has(df, "Tipo") then StatementToCanonical(df) else Success(df)
  }

  /**
   * The read attempts of `pre_process_csv`: the canonical schema on the file as
   * given; on `ComputeError` the second attempt; on a second `ComputeError` the
   * file repaired by `check_integrity_with_finance`.
   */
  function ReadAttempts(env: Env, content: string, data: string, sep: char): (r: Result<Frame, Err>)
    requires WellBehaved(env)
    ensures r.Success? ==> Valid(r.value)
  {
    var first := env.readPolars(content, sep, FinanceSchema(None), false);
    if first != Failure(ComputeError) then first
    else
      match SecondAttempt(env, content, sep)
      case Failure(ComputeError) =>
        var (repaired, sep2) :- CheckIntegrity(env, data);
        LoadCsvDf(env, repaired, sep2, Some(FinanceSchema(None)), false)
      case other => other
  }

  /**
   * The second attempt repeats the first read exactly, so after a `ComputeError`
   * it raises `ComputeError` again: its statement conversion is never reached, and
   * a file the canonical schema cannot read goes straight to the repair.
   */
  lemma SecondReadRepeatsFirst(env: Env, content: string, data: string, sep: char)
    requires WellBehaved(env)
    ensures var first := env.readPolars(content, sep, FinanceSchema(None), false);
      first == Failure(ComputeError) ==> SecondAttempt(env, content, sep) == Failure(ComputeError)
    ensures var first := env.readPolars(content, sep, FinanceSchema(None), false);
      ReadAttempts(env, content, data, sep) ==
        if first != Failure(ComputeError) then first
        else match CheckIntegrity(env, data)
             case Failure(e) => Failure(e)
             case Success((repaired, sep2)) => env.readPolars(repaired, sep2, FinanceSchema(None), false)
  {
    FinanceTypes();
    assert |FinanceSchema(None)| > 0;
  }

  /**
   * Where `pre_process_csv` reads from: a file with the `Extrato Conta Corrente`
   * preamble loses it, and `check_integrity_with_finance` on the rest decides the
   * separator; the path itself is not changed, so the first read is still of the
   * original file.
   */
  function Locate(env: Env, content: string, sep0: char): (r: Result<(string, char), Err>)
    requires WellBehaved(env)
    ensures !Contains(content, Preamble) ==> r == Success((content, sep0))
    ensures Contains(content, Preamble) && r.Success? ==>
              CutPreamble(content) == Success(r.value.0) && CheckIntegrity(env, r.value.0).Success?
              && r.value.1 == CheckIntegrity(env, r.value.0).value.1
  {
    if Contains(content, Preamble) then
      var cut :- CutPreamble(content);
      var (_, sep) :- CheckIntegrity(env, cut);
      Success((cut, sep))
    else Success((content, sep0))
  }

  /**
   * `pre_process_csv(path, separation_char, bank)`: locate the data, read it with
   * the fallbacks, then tag every row with the bank and drop the rows without a
   * description and the automatic card payment.
   */
  function PreProcessCsv(env: Env, content: string, sep0: char, bank: string): (r: Result<Frame, Err>)
    requires WellBehaved(env)
    ensures r.Success? ==> Valid(r.value) && Has(r.value, BankColumn)
    ensures r.Success? ==> forall c :: c in Get(r.value, BankColumn).value.cells ==> c == Text(bank)
    ensures r.Success? ==> Get(r.value, "Descrição").Some? && forall c :: c in Get(r.value, "Descrição").value.cells ==> Kept(c)
    ensures r.Success? ==> exists df :: Valid(df) && r == TagAndFilter(df, bank)
  {
    var (data, sep) :- Locate(env, content, sep0);
    var df :- ReadAttempts(env, content, data, sep);
    TagAndFilter(df, bank)
  }

  /** A plain file that the canonical schema reads is only tagged and filtered. */
  lemma PreProcessReadable(env: Env, content: string, sep0: char, bank: string, df: Frame)
    requires WellBehaved(env) && !Contains(content, Preamble)
    requires env.readPolars(content, sep0, FinanceDefault, false) == Success(df)
    ensures PreProcessCsv(env, content, sep0, bank) == TagAndFilter(df, bank)
  {
    assert Locate(env, content, sep0) == Success((content, sep0));
    assert FinanceSchema(None) == FinanceDefault;
    assert ReadAttempts(env, content, content, sep0) == Success(df);
  }

  /** A plain file the canonical schema cannot read is repaired, and the repaired text is read with the detected separator. */
  lemma PreProcessRepaired(env: Env, content: string, sep0: char, bank: string)
    requires WellBehaved(env) && !Contains(content, Preamble)
    requires env.readPolars(content, sep0, FinanceDefault, false) == Failure(ComputeError)
    ensures PreProcessCsv(env, content, sep0, bank) ==
              match CheckIntegrity(env, content)
              case Failure(e) => Failure(e)
              case Success((repaired, sep)) =>
                match env.readPolars(repaired, sep, FinanceDefault, false)
                case Failure(e) => Failure(e)
                case Success(df) => TagAndFilter(df, bank)
  {
    SecondReadRepeatsFirst(env, content, content, sep0);
  }

  /**
   * A file with the preamble is cut and repaired only to learn the separator: the
   * reads, the first one included, still see the original file, with that separator.
   */
  lemma PreProcessPreamble(env: Env, content: string, sep0: char, bank: string)
    requires WellBehaved(env) && Contains(content, Preamble)
    ensures PreProcessCsv(env, content, sep0, bank) ==
              match CutPreamble(content)
              case Failure(e) => Failure(e)
              case Success(cut) =>
                match CheckIntegrity(env, cut)
                case Failure(e) => Failure(e)
                case Success((_, sep)) =>
                  match ReadAttempts(env, content, cut, sep)
                  case Failure(e) => Failure(e)
                  case Success(df) => TagAndFilter(df, bank)
  {
    match CutPreamble(content)
    case Failure(e) =>
      assert Locate(env, content, sep0) == Failure(e);
    case Success(cut) =>
      match CheckIntegrity(env, cut)
      case Failure(e) =>
        assert Locate(env, content, sep0) == Failure(e);
      case Success((_, sep)) =>
        assert Locate(env, content, sep0) == Success((cut, sep));
  }
}
