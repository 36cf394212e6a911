/**
 * The two column layouts of the ingestion pipeline: the canonical ledger schema
 * (`FinanceSchema`) and the credit-card statement schema (`FaturaSchema`).
 * A schema is an ordered list of (column name, column type) pairs.
 */
module Schema {
  import opened Wrappers

  /** The polars column types the schemas use: `pl.Date`, `pl.String`, `pl.Float64`. */
  datatype DType = Date | Str | Float64

  type Field = (string, DType)
  type Schema = seq<Field>

  /** The column names of a schema, in schema order. */
  function Names(s: Schema): (r: seq<string>)
    ensures |r| == |s|
  {
    if |s| == 0 then [] else [s[0].0] + Names(s[1..])
  }

  /** The type a schema gives to a column name, if the schema has that column. */
  function TypeOf(s: Schema, name: string): Option<DType> {
    if |s| == 0 then None
    else if s[0].0 == name then Some(s[0].1)
    else TypeOf(s[1..], name)
  }

  /** Every name occurs at most once. */
  predicate Distinct(names: seq<string>) {
    forall i, j :: 0 <= i < j < |names| ==> names[i] != names[j]
  }

  /** The default mapping of `FinanceSchema`. */
  const FinanceDefault: Schema := [
    ("Data", Date),
    ("Descrição", Str),
    ("Valor", Float64),
    ("Saldo", Float64),
    ("Categoria", Str)
  ]

  /** The default mapping of `FaturaSchema`; `Lançamento` carries the description. */
  const FaturaDefault: Schema := [
    ("Data", Date),
    ("Lançamento", Str),
    ("Categoria", Str),
    ("Tipo", Str),
    ("Valor", Str)
  ]

  /** The canonical column names, which the pipeline reorders every table into. */
  const FinanceNames: seq<string> := ["Data", "Descrição", "Valor", "Saldo", "Categoria"]

  /** `FinanceSchema(schema=...)`: a caller-supplied mapping replaces the default one. */
  function FinanceSchema(custom: Option<Schema>): (r: Schema)
    ensures custom.Some? ==> r == custom.value
    ensures custom.None? ==> Names(r) == FinanceNames
  {
    if custom.Some? then custom.value else FinanceDefault
  }

  /** `FaturaSchema(schema=...)`: a caller-supplied mapping replaces the default one. */
  function FaturaSchema(custom: Option<Schema>): (r: Schema)
    ensures custom.Some? ==> r == custom.value
    ensures custom.None? ==> Names(r) == ["Data", "Lançamento", "Categoria", "Tipo", "Valor"]
  {
    if custom.Some? then custom.value else FaturaDefault
  }

  /** The canonical schema types its columns as a date, two texts and two amounts. */
  lemma FinanceTypes()
    ensures Distinct(FinanceNames)
    ensures TypeOf(FinanceDefault, "Data") == Some(Date)
    ensures TypeOf(FinanceDefault, "Descrição") == Some(Str)
    ensures TypeOf(FinanceDefault, "Valor") == Some(Float64)
    ensures TypeOf(FinanceDefault, "Saldo") == Some(Float64)
    ensures TypeOf(FinanceDefault, "Categoria") == Some(Str)
  {
  }

  /**
   * The statement schema has no balance column, names its description `Lançamento`,
   * and types `Valor` as text where the canonical schema has a number.
   */
  lemma FaturaTypes()
    ensures Distinct(Names(FaturaDefault))
    ensures TypeOf(FaturaDefault, "Saldo") == None
    ensures TypeOf(FaturaDefault, "Descrição") == None
    ensures TypeOf(FaturaDefault, "Lançamento") == Some(Str)
    ensures TypeOf(FaturaDefault, "Valor") == Some(Str) != TypeOf(FinanceDefault, "Valor")
    ensures TypeOf(FaturaDefault, "Data") == Some(Date)
    ensures TypeOf(FaturaDefault, "Categoria") == Some(Str) && TypeOf(FaturaDefault, "Tipo") == Some(Str)
  {
  }
}
