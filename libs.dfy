/**
 * The library calls the ingestion code makes and that the model does not
 * look inside: the polars and pandas CSV readers, pandas' dtype conversions
 * and the CSV writer. Each is a total function value; a file path stands for
 * the text the file holds, so a reader is applied to that text.
 */
module Libs {
  import opened Wrappers
  import opened Frames
  import opened Schema

  datatype Env = Env(
    /** `pl.read_csv(file, separator=sep, schema=schema, decimal_comma=dc)` */
    readPolars: (string, char, Schema, bool) -> Result<Frame, Err>,
    /** `pd.read_csv(file, sep=sep, ...)` */
    readPandas: (string, char) -> Result<Frame, Err>,
    /** the `to_datetime` / `astype` conversion of a column's cells to a dtype: the identity when the dtype already matches */
    coerce: (seq<Cell>, DType) -> Result<seq<Cell>, Err>,
    /** `df.to_csv(file, sep=sep, index=False, header=True)`, as the text written */
    writeCsv: (Frame, char) -> string)

  /**
   * What the pipeline takes for granted of the libraries: a frame a reader
   * returns has one cell per row in every column and distinct column names, and a
   * conversion returns one cell per cell it was given.
   */
  ghost predicate WellBehaved(env: Env) {
    (forall text, sep, schema, dc :: env.readPolars(text, sep, schema, dc).Success? ==>
       Valid(env.readPolars(text, sep, schema, dc).value))
    && (forall text, sep :: env.readPandas(text, sep).Success? ==> Valid(env.readPandas(text, sep).value))
    && KeepsLength(env)
  }

  /** A dtype conversion returns one cell per cell it was given. */
  ghost predicate KeepsLength(env: Env) {
    forall cells, t :: env.coerce(cells, t).Success? ==> |env.coerce(cells, t).value| == |cells|
  }

  /** The chain settles on attempt `k`: every earlier one raised `ComputeError`, and `k` did not or is the last. */
  predicate Settles(attempts: seq<Result<Frame, Err>>, k: nat) {
    k < |attempts|
    && (forall j :: 0 <= j < k ==> attempts[j] == Failure(ComputeError))
    && (k == |attempts| - 1 || attempts[k] != Failure(ComputeError))
  }

  /**
   * An ordered list of read attempts where only a `ComputeError` moves on to the
   * next attempt: the first attempt that succeeds or fails otherwise decides, and
   * the last attempt's outcome stands whatever it is.
   */
  function Fallback(attempts: seq<Result<Frame, Err>>): (r: Result<Frame, Err>)
    requires |attempts| > 0
    ensures exists k: nat :: Settles(attempts, k) && r == attempts[k]
  {
    if |attempts| == 1 || attempts[0] != Failure(ComputeError) then
      assert Settles(attempts, 0);
      attempts[0]
    else
      var r := Fallback(attempts[1..]);
      var k: nat :| Settles(attempts[1..], k) && r == attempts[1..][k];
      assert Settles(attempts, k + 1);
      r
  }

  /** Only one attempt can be the one a chain settles on. */
  lemma SettlesUnique(attempts: seq<Result<Frame, Err>>, k: nat, m: nat)
    requires Settles(attempts, k) && Settles(attempts, m)
    ensures k == m
  {

  }

  /** Two attempts: the second is read only when the first raised `ComputeError`. */
  lemma FallbackOfTwo(a: Result<Frame, Err>, b: Result<Frame, Err>)
    ensures Fallback([a, b]) == if a == Failure(ComputeError) then b else a
  {
    var xs := [a, b];
    assert xs[0] == a && xs[1..] == [b];
    assert Fallback([b]) == b;
  }
}
