/**
 * The text-level repairs of the ingestion pipeline: cutting the preamble of an
 * "Extrato Conta Corrente" export, renaming the date column in the header, and
 * the three regular-expression rewrites of `handle_tmp_file` (drop thousands
 * dots, decimal commas to points, `DD/MM/YYYY` to `YYYY-MM-DD`).
 *
 * Each regular expression is written out as a scan over the characters of the
 * text it is applied to; look-behind and look-ahead read that same text, as
 * `re.sub` does.
 */
module Repair {
  import opened Wrappers
  import opened Text
  import opened Frames

  /** `[0-9]` */
  predicate IsDigit(c: char) {
    '0' <= c <= '9'
  }

  // ---------------------------------------------------------------- (?<=[0-9])\.(?=[0-9]{3}) -> ''

  /** The dot at `i` sits after a digit and before three digits. */
  predicate ThousandsDotAt(s: string, i: nat)
    requires i < |s|
  {
    s[i] == '.' && i > 0 && IsDigit(s[i - 1])
    && i + 3 < |s| && IsDigit(s[i + 1]) && IsDigit(s[i + 2]) && IsDigit(s[i + 3])
  }

  function DropThousandsFrom(s: string, i: nat): (r: string)
    requires i <= |s|
    ensures |r| <= |s| - i
    decreases |s| - i
  {
    if i == |s| then ""
    else (if ThousandsDotAt(s, i) then "" else [s[i]]) + DropThousandsFrom(s, i + 1)
  }

  /** The first pass: every thousands dot is deleted. */
  function DropThousands(s: string): (r: string)
    ensures |r| <= |s|
  {
    DropThousandsFrom(s, 0)
  }

  /** The positions, from `i` on, that the first pass keeps, ascending. */
  function KeptFrom(s: string, i: nat): (ks: seq<nat>)
    requires i <= |s|
    ensures forall k :: 0 <= k < |ks| ==> i <= ks[k] < |s|
    decreases |s| - i
  {
    if i == |s| then []
    else (if ThousandsDotAt(s, i) then [] else [i]) + KeptFrom(s, i + 1)
  }

  lemma {:induction false} KeptFromChars(s: string, i: nat)
    requires i <= |s|
    ensures |DropThousandsFrom(s, i)| == |KeptFrom(s, i)|
    ensures forall k :: 0 <= k < |KeptFrom(s, i)| ==> DropThousandsFrom(s, i)[k] == s[KeptFrom(s, i)[k]]
    decreases |s| - i
  {
    if i < |s| {
      KeptFromChars(s, i + 1);
      if !ThousandsDotAt(s, i) {
        var tail, out := KeptFrom(s, i + 1), DropThousandsFrom(s, i + 1);
        assert KeptFrom(s, i) == [i] + tail;
        assert DropThousandsFrom(s, i) == [s[i]] + out;
        forall k | 0 < k < |KeptFrom(s, i)| ensures DropThousandsFrom(s, i)[k] == s[KeptFrom(s, i)[k]] {
          assert KeptFrom(s, i)[k] == tail[k - 1];
          assert DropThousandsFrom(s, i)[k] == out[k - 1];
        }
      }
    }
  }

  lemma {:induction false} KeptFromOrder(s: string, i: nat)
    requires i <= |s|
    ensures forall a, b :: 0 <= a < b < |KeptFrom(s, i)| ==> KeptFrom(s, i)[a] < KeptFrom(s, i)[b]
    ensures forall j :: i <= j < |s| ==> (j in KeptFrom(s, i) <==> !ThousandsDotAt(s, j))
    decreases |s| - i
  {
    if i < |s| {
      KeptFromOrder(s, i + 1);
      var tail := KeptFrom(s, i + 1);
      if !ThousandsDotAt(s, i) {
        assert KeptFrom(s, i) == [i] + tail;
        assert i !in tail;
      }
    }
  }

  /**
   * The first pass deletes exactly the thousands dots: its output lists, in their
   * original order, the characters at every other position of the input.
   */
  lemma DropThousandsKeepsTheRest(s: string)
    ensures var ks := KeptFrom(s, 0);
      |DropThousands(s)| == |ks|
      && (forall k :: 0 <= k < |ks| ==> DropThousands(s)[k] == s[ks[k]])
      && (forall a, b :: 0 <= a < b < |ks| ==> ks[a] < ks[b])
      && (forall j :: 0 <= j < |s| ==> (j in ks <==> !ThousandsDotAt(s, j)))
  {
    KeptFromChars(s, 0);
    KeptFromOrder(s, 0);
  }

  // ---------------------------------------------------------------- (?<=[0-9]),(?=[0-9]{2}) -> '.'

  /** The comma at `i` sits after a digit and before two digits. */
  predicate DecimalCommaAt(s: string, i: nat)
    requires i < |s|
  {
    s[i] == ',' && i > 0 && IsDigit(s[i - 1])
    && i + 2 < |s| && IsDigit(s[i + 1]) && IsDigit(s[i + 2])
  }

  function DecimalPointsFrom(s: string, i: nat): (r: string)
    requires i <= |s|
    ensures |r| == |s| - i
    ensures forall k :: 0 <= k < |r| ==> r[k] == (if DecimalCommaAt(s, i + k) then '.' else s[i + k])
    decreases |s| - i
  {
    if i == |s| then ""
    else
      var tail := DecimalPointsFrom(s, i + 1);
      var r := [if DecimalCommaAt(s, i) then '.' else s[i]] + tail;
      assert forall k :: 0 < k < |r| ==> r[k] == tail[k - 1];
      r
  }

  /**
   * The second pass: each decimal comma becomes a point and every other character
   * stays where it is, so the length is preserved.
   */
  function DecimalPoints(s: string): (r: string)
    ensures |r| == |s|
    ensures forall k :: 0 <= k < |s| ==> r[k] == (if DecimalCommaAt(s, k) then '.' else s[k])
  {
    DecimalPointsFrom(s, 0)
  }

  // ---------------------------------------------------------------- ([0-9]{2})/([0-9]{2})/([0-9]{4}) -> \3-\2-\1

  /** `DD/MM/YYYY` starts at `i`. */
  predicate DateAt(s: string, i: nat) {
    i + 10 <= |s|
    && IsDigit(s[i]) && IsDigit(s[i + 1]) && s[i + 2] == '/'
    && IsDigit(s[i + 3]) && IsDigit(s[i + 4]) && s[i + 5] == '/'
    && IsDigit(s[i + 6]) && IsDigit(s[i + 7]) && IsDigit(s[i + 8]) && IsDigit(s[i + 9])
  }

  /** `DD/MM/YYYY` to `YYYY-MM-DD`. */
  function IsoDate(w: string): (r: string)
    requires |w| == 10
    ensures |r| == 10
    ensures r[..4] == w[6..] && r[4] == '-' && r[5..7] == w[3..5] && r[7] == '-' && r[8..] == w[..2]
  {
    w[6..] + "-" + w[3..5] + "-" + w[..2]
  }

  /** `re.sub` from position `i`: a match is replaced and the scan resumes after it. */
  function IsoDatesFrom(s: string, i: nat): (r: string)
    requires i <= |s|
    ensures |r| == |s| - i
    decreases |s| - i
  {
    if i == |s| then ""
    else if DateAt(s, i) then IsoDate(s[i..i + 10]) + IsoDatesFrom(s, i + 10)
    else [s[i]] + IsoDatesFrom(s, i + 1)
  }

  /** The third pass: leftmost, non-overlapping `DD/MM/YYYY` become `YYYY-MM-DD`. */
  function IsoDates(s: string): (r: string)
    ensures |r| == |s|
  {
    IsoDatesFrom(s, 0)
  }

  /** A character the third pass changes lies inside some `DD/MM/YYYY` of its input. */
  lemma {:induction false} IsoDatesFromOnlyTouchesDates(s: string, i: nat, k: nat)
    requires i <= k < |s|
    requires IsoDatesFrom(s, i)[k - i] != s[k]
    ensures exists j :: 0 <= j <= k < j + 10 && DateAt(s, j)
    decreases |s| - i
  {
    var r := IsoDatesFrom(s, i);
    if DateAt(s, i) {
      if k >= i + 10 {
        assert r[k - i] == IsoDatesFrom(s, i + 10)[k - i - 10];
        IsoDatesFromOnlyTouchesDates(s, i + 10, k);
      } else {
        assert i <= k < i + 10;
      }
    } else {
      assert k != i;
      assert r[k - i] == IsoDatesFrom(s, i + 1)[k - i - 1];
      IsoDatesFromOnlyTouchesDates(s, i + 1, k);
    }
  }

  /** The third pass leaves every character outside the dates it matches untouched. */
  lemma IsoDatesOnlyTouchesDates(s: string, k: nat)
    requires k < |s| && !exists j :: 0 <= j <= k < j + 10 && DateAt(s, j)
    ensures IsoDates(s)[k] == s[k]
  {
    if IsoDates(s)[k] != s[k] {
      IsoDatesFromOnlyTouchesDates(s, 0, k);
    }
  }

  /**
   * From `i`, the pass keeps the text up to the next date, rewrites that date and
   * resumes right after it, so by repetition every leftmost, non-overlapping
   * `DD/MM/YYYY` is rewritten.
   */
  lemma {:induction false} IsoDatesFromNextDate(s: string, i: nat, j: nat)
    requires i <= j && DateAt(s, j)
    requires forall m :: i <= m < j ==> !DateAt(s, m)
    ensures IsoDatesFrom(s, i) == s[i..j] + IsoDate(s[j..j + 10]) + IsoDatesFrom(s, j + 10)
    decreases j - i
  {
    var d, t := IsoDate(s[j..j + 10]), IsoDatesFrom(s, j + 10);
    if i < j {
      assert !DateAt(s, i);
      assert IsoDatesFrom(s, i) == [s[i]] + IsoDatesFrom(s, i + 1);
      IsoDatesFromNextDate(s, i + 1, j);
      calc {
        IsoDatesFrom(s, i);
        [s[i]] + (s[i + 1..j] + d + t);
        ([s[i]] + s[i + 1..j]) + d + t;
        { assert [s[i]] + s[i + 1..j] == s[i..j]; }
        s[i..j] + d + t;
      }
    } else {
      assert IsoDatesFrom(s, j) == d + t;
      assert s[j..j] == [];
    }
  }

  /** Up to the first date, the third pass is the identity; the first date is rewritten; the scan resumes after it. */
  lemma IsoDatesFromFirstDate(s: string, i: nat, j: nat)
    requires i <= j && DateAt(s, j)
    requires forall m :: i <= m < j ==> !DateAt(s, m)
    ensures IsoDatesFrom(s, i)[..j - i] == s[i..j]
    ensures IsoDatesFrom(s, i)[j - i..j - i + 10] == IsoDate(s[j..j + 10])
    ensures IsoDatesFrom(s, i)[j - i + 10..] == IsoDatesFrom(s, j + 10)
  {
    IsoDatesFromNextDate(s, i, j);
  }

  /** Past the last date, the pass is the identity. */
  lemma {:induction false} IsoDatesFromNoDate(s: string, i: nat)
    requires i <= |s| && forall m :: i <= m < |s| ==> !DateAt(s, m)
    ensures IsoDatesFrom(s, i) == s[i..]
    decreases |s| - i
  {
    if i < |s| {
      IsoDatesFromNoDate(s, i + 1);
      assert s[i..] == [s[i]] + s[i + 1..];
    }
  }

  /** The leftmost `DD/MM/YYYY` of the text is rewritten and everything before it is kept. */
  lemma IsoDatesFirstDate(s: string, j: nat)
    requires DateAt(s, j) && forall m :: 0 <= m < j ==> !DateAt(s, m)
    ensures IsoDates(s)[..j] == s[..j]
    ensures IsoDates(s)[j..j + 10] == IsoDate(s[j..j + 10])
    ensures IsoDates(s)[j + 10..] == IsoDatesFrom(s, j + 10)
  {
    IsoDatesFromFirstDate(s, 0, j);
  }

  // ---------------------------------------------------------------- handle_tmp_file

  /** The three passes of `handle_tmp_file`, in their order. */
  function RepairText(s: string): string {
    IsoDates(DecimalPoints(DropThousands(s)))
  }

  /** Because dots go first, a grouped amount comes out as a plain decimal number. */
  lemma RepairGroupedAmount()
    ensures RepairText("1.234,56") == "1234.56"
  {
    GroupedDropsDot();
    GroupedCommaToPoint();
    GroupedNoDate();
  }

  /** The first pass removes the thousands dot of `1.234,56`. */
  lemma GroupedDropsDot()
    ensures DropThousands("1.234,56") == "1234,56"
  {
    var s := "1.234,56";
    assert DropThousandsFrom(s, 2) == "234,56" by {
      assert s[2..] == "234,56";
      DropThousandsFromNoDot(s, 2);
    }
    assert ThousandsDotAt(s, 1);
    assert DropThousandsFrom(s, 1) == "234,56";
  }

  /** The second pass turns the decimal comma of `1234,56` into a point. */
  lemma GroupedCommaToPoint()
    ensures DecimalPoints("1234,56") == "1234.56"
  {
    var t := "1234,56";
    assert DecimalCommaAt(t, 4);
    assert forall k :: 0 <= k < |t| && k != 4 ==> !DecimalCommaAt(t, k);
  }

  /** The third pass finds no date in `1234.56`. */
  lemma GroupedNoDate()
    ensures IsoDates("1234.56") == "1234.56"
  {
    var u := "1234.56";
    assert IsoDatesFrom(u, 7) == "";
    assert IsoDatesFrom(u, 0) == u;
  }

  /** Text without a dot passes the first pass unchanged. */
  lemma {:induction false} DropThousandsFromNoDot(s: string, i: nat)
    requires i <= |s| && '.' !in s[i..]
    ensures DropThousandsFrom(s, i) == s[i..]
    decreases |s| - i
  {
    if i < |s| {
      assert s[i] == s[i..][0];
      assert s[i + 1..] == s[i..][1..];
      DropThousandsFromNoDot(s, i + 1);
      assert s[i..] == [s[i]] + s[i + 1..];
    }
  }

  /** Text without a comma passes the second pass unchanged. */
  lemma DecimalPointsNoComma(s: string)
    requires ',' !in s
    ensures DecimalPoints(s) == s
  {
  }

  /** A text that is one `DD/MM/YYYY` becomes the ISO form of that date. */
  lemma IsoDatesOfOneDate(s: string)
    requires |s| == 10 && DateAt(s, 0)
    ensures IsoDates(s) == IsoDate(s)
  {
    assert s[0..10] == s;
    assert IsoDatesFrom(s, 10) == "";
  }

  /** A Brazilian date comes out in ISO order. */
  lemma RepairDate(s: string)
    requires s == "05/03/2024"
    ensures RepairText(s) == "2024-03-05"
  {
    assert s[0..] == s;
    DropThousandsFromNoDot(s, 0);
    assert DropThousands(s) == s;
    DecimalPointsNoComma(s);
    assert DateAt(s, 0);
    IsoDatesOfOneDate(s);
    assert IsoDate(s) == "2024-03-05";
  }

  /**
   * The decimal pass does not know which character separates the fields: in a
   * comma-separated line, a comma between a one-digit field and a field that
   * starts with two digits is read as a decimal comma, and two fields become one.
   */
  lemma DecimalPassIgnoresDelimiters()
    ensures |SplitOn("1,10", [','])| == 2
    ensures RepairText("1,10") == "1.10"
    ensures |SplitOn(RepairText("1,10"), [','])| == 1
  {
    var s := "1,10";
    assert DropThousandsFrom(s, 4) == "";
    assert DropThousandsFrom(s, 0) == s;
    assert DecimalCommaAt(s, 1);
    assert DecimalPoints(s) == "1.10";
    assert IsoDatesFrom("1.10", 4) == "";
    assert IsoDatesFrom("1.10", 0) == "1.10";
    SplitOnCharFields(s, ',');
    SplitOnCharFields("1.10", ',');
    assert ',' in s;
    assert ',' !in "1.10";
    assert Find(s, [',']) == Some(1) by { OccursAtChar(s, ',', 1); OccursAtChar(s, ',', 0); }
    assert Find("10", [',']) == None by { ContainsChar("10", ','); }
  }

  // ---------------------------------------------------------------- preamble and header

  const Preamble: string := "Extrato Conta Corrente"
  const BlankLine: string := "\n\n"

  /**
   * `_, data = data.split('\n\n')` when the text names the "Extrato Conta Corrente"
   * export: the text after the blank line is kept, and a text with no blank line
   * or with more than one fails to unpack.
   */
  function CutPreamble(content: string): (r: Result<string, Err>)
    ensures !Contains(content, Preamble) ==> r == Success(content)
    ensures Contains(content, Preamble) ==> (r.Success? <==> |SplitOn(content, BlankLine)| == 2)
    ensures Contains(content, Preamble) && r.Failure? ==> r.error == UnpackError(|SplitOn(content, BlankLine)|)
    ensures Contains(content, Preamble) && r.Success? ==>
              content == SplitOn(content, BlankLine)[0] + BlankLine + r.value
              && !Contains(SplitOn(content, BlankLine)[0], BlankLine)
              && !Contains(r.value, BlankLine)
  {
    if !Contains(content, Preamble) then Success(content)
    else
      var parts := SplitOn(content, BlankLine);
      if |parts| != 2 then Failure(UnpackError(|parts|))
      else
        JoinSplitOn(content, BlankLine);
        assert parts[1..] == [parts[1]];
        SplitOnPartsAreFree(content, BlankLine, 0);
        SplitOnPartsAreFree(content, BlankLine, 1);
        Success(parts[1])
  }

  const OldDateHeader: string := "Data Lançamento"
  const DateHeader: string := "Data"

  /**
   * `header, data = data.split('\n', maxsplit=1)`, the header's `Data Lançamento`
   * renamed to `Data`, and the two joined again. A text without a newline fails
   * to unpack.
   */
  function RenameHeader(text: string): (r: Result<string, Err>)
    ensures r.Failure? <==> '\n' !in text
    ensures r.Failure? ==> r.error == UnpackError(1)
    ensures r.Success? ==> exists header, body ::
              text == header + "\n" + body && '\n' !in header
              && r.value == ReplaceAll(header, OldDateHeader, DateHeader) + "\n" + body
  {
    match SplitOnce(text, '\n')
    case None => Failure(UnpackError(1))
    case Some((header, body)) => Success(ReplaceAll(header, OldDateHeader, DateHeader) + "\n" + body)
  }

  /** The body after the header line is never touched by the rename. */
  lemma RenameHeaderKeepsBody(text: string, header: string, body: string)
    requires text == header + "\n" + body && '\n' !in header
    ensures RenameHeader(text).Success?
    ensures var r := RenameHeader(text).value;
      |body| <= |r| && r[|r| - |body|..] == body
  {
    SplitOnceAt(text, '\n', header, body);
    var r := RenameHeader(text).value;
    assert r == ReplaceAll(header, OldDateHeader, DateHeader) + "\n" + body;
  }

  /** A header without `Data Lançamento` leaves the whole text as it was. */
  lemma RenameHeaderIdentity(text: string, header: string, body: string)
    requires text == header + "\n" + body && '\n' !in header
    requires !Contains(header, OldDateHeader)
    ensures RenameHeader(text) == Success(text)
  {
    SplitOnceAt(text, '\n', header, body);
    ReplaceAllAbsent(header, OldDateHeader, DateHeader);
  }
}
