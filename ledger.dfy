/**
 * The ledger table of `models/finance.py` as values: its rows, the running balance
 * that `recalculate_data` derives, and the two read-only queries `get_pix_data`
 * and `get_total_amount_by_day`.
 *
 * A row is kept apart from its `Saldo` (balance) cell, as the dataframe keeps its
 * columns apart: `Saldo` is always recomputed from the rows, so what it held
 * before a recomputation never matters. Amounts are integer cents and dates are
 * day ordinals.
 */
module Ledger {
  import opened Wrappers

  /** A calendar date, as a day ordinal. */
  type Date = int

  /** One ledger row without its balance cell: `Data`, `Descrição`, `Valor` (cents), `Categoria`. */
  datatype Entry = Entry(date: Date, desc: string, valor: int, categoria: string)

  // ---------------------------------------------------------------- sums

  /** Sum of `Valor` over the rows that satisfy `p`. */
  function SumIf(rows: seq<Entry>, p: Entry -> bool): int {
    if |rows| == 0 then 0
    else SumIf(rows[..|rows| - 1], p) + (if p(rows[|rows| - 1]) then rows[|rows| - 1].valor else 0)
  }

  predicate Always(e: Entry) { true }

  /** Sum of `Valor` over all rows. */
  function Total(rows: seq<Entry>): int {
    SumIf(rows, Always)
  }

  /** Rows dated on or before `d`. */
  function OnOrBefore(d: Date): Entry -> bool {
    (e: Entry) => e.date <= d
  }

  /** Rows of the (`Data`, `Categoria`) group `(d, c)`. */
  function InGroup(d: Date, c: string): Entry -> bool {
    (e: Entry) => e.date == d && e.categoria == c
  }

  lemma {:induction false} SumIfConcat(u: seq<Entry>, v: seq<Entry>, p: Entry -> bool)
    ensures SumIf(u + v, p) == SumIf(u, p) + SumIf(v, p)
    decreases |v|
  {
    if |v| == 0 {
      assert u + v == u;
    } else {
      var v' := v[..|v| - 1];
      SumIfConcat(u, v', p);
      assert (u + v)[..|u + v| - 1] == u + v';
    }
  }

  /** A sum over rows does not depend on the order of the rows. */
  lemma {:induction false} SumIfPermutation(a: seq<Entry>, b: seq<Entry>, p: Entry -> bool)
    requires multiset(a) == multiset(b)
    ensures SumIf(a, p) == SumIf(b, p)
    decreases |a|
  {
    if |a| == 0 {
      assert |multiset(b)| == 0;
    } else {
      var x, a' := a[|a| - 1], a[..|a| - 1];
      assert a == a' + [x];
      assert x in multiset(b) by { assert x in multiset(a); }
      var j :| 0 <= j < |b| && b[j] == x;
      var b' := b[..j] + b[j + 1..];
      MultisetPick(b, j);
      assert multiset(a') == multiset(b');
      SumIfPermutation(a', b', p);
      calc {
        SumIf(a, p);
        { SumIfConcat(a', [x], p); }
        SumIf(a', p) + SumIf([x], p);
        SumIf(b', p) + SumIf([x], p);
        { SumIfPick(b, j, p); }
        SumIf(b, p);
      }
    }
  }

  /** Taking row `j` out of `b` takes one copy of it out of the multiset. */
  lemma MultisetPick(b: seq<Entry>, j: nat)
    requires j < |b|
    ensures multiset(b[..j] + b[j + 1..]) == multiset(b) - multiset{b[j]}
  {
    assert b == b[..j] + [b[j]] + b[j + 1..];
  }

  /** Taking row `j` out of `b` takes its share out of the sum. */
  lemma SumIfPick(b: seq<Entry>, j: nat, p: Entry -> bool)
    requires j < |b|
    ensures SumIf(b, p) == SumIf(b[..j] + b[j + 1..], p) + SumIf([b[j]], p)
  {
    var u, x, w := b[..j], b[j], b[j + 1..];
    calc {
      SumIf(b, p);
      { assert b == (u + [x]) + w; }
      SumIf((u + [x]) + w, p);
      { SumIfConcat(u + [x], w, p); }
      SumIf(u + [x], p) + SumIf(w, p);
      { SumIfConcat(u, [x], p); }
      SumIf(u, p) + SumIf([x], p) + SumIf(w, p);
      { SumIfConcat(u, w, p); }
      SumIf(u + w, p) + SumIf([x], p);
    }
  }

  lemma TotalCons(x: Entry, w: seq<Entry>)
    ensures Total([x] + w) == x.valor + Total(w)
  {
    SumIfConcat([x], w, Always);
    assert [x][..0] == [];
  }

  // ---------------------------------------------------------------- balances

  /** `saldo` is the running balance of `rows`: its i-th cell is the sum of `Valor` over rows 0..i. */
  predicate Balanced(rows: seq<Entry>, saldo: seq<int>) {
    |saldo| == |rows| && forall i :: 0 <= i < |rows| ==> saldo[i] == Total(rows[..i + 1])
  }

  lemma TotalPrefixCons(rows: seq<Entry>, i: nat)
    requires i < |rows|
    ensures Total(rows[..i + 1]) == rows[0].valor + Total(rows[1..][..i])
  {
    assert rows[..i + 1] == [rows[0]] + rows[1..][..i];
    TotalCons(rows[0], rows[1..][..i]);
  }

  /** `cum_sum` of `Valor` started from `acc`. */
  function CumSum(rows: seq<Entry>, acc: int): (r: seq<int>)
    ensures |r| == |rows|
    ensures forall i :: 0 <= i < |rows| ==> r[i] == acc + Total(rows[..i + 1])
  {
    if |rows| == 0 then []
    else
      var tail := CumSum(rows[1..], acc + rows[0].valor);
      var r := [acc + rows[0].valor] + tail;
      assert forall i :: 0 <= i < |rows| ==> r[i] == acc + Total(rows[..i + 1]) by {
        forall i | 0 <= i < |rows| ensures r[i] == acc + Total(rows[..i + 1]) {
          TotalPrefixCons(rows, i);
          if i > 0 {
            assert r[i] == tail[i - 1];
          }
        }
      }
      r
  }

  /** `pl.col('Valor').cum_sum()`: the running balance of the rows in their current order. */
  function RunningBalance(rows: seq<Entry>): (saldo: seq<int>)
    ensures Balanced(rows, saldo)
  {
    CumSum(rows, 0)
  }

  /** The last balance is the total of all amounts. */
  lemma LastBalanceIsTotal(rows: seq<Entry>, saldo: seq<int>)
    requires Balanced(rows, saldo) && |rows| > 0
    ensures saldo[|rows| - 1] == Total(rows)
  {
    assert rows[..|rows|] == rows;
  }

  // ---------------------------------------------------------------- sorting

  /** `Data` never decreases along the rows. */
  predicate DateSorted(rows: seq<Entry>) {
    forall i, j :: 0 <= i < j < |rows| ==> rows[i].date <= rows[j].date
  }

  function InsertByDate(x: Entry, s: seq<Entry>): (r: seq<Entry>)
    requires DateSorted(s)
    ensures DateSorted(r)
    ensures multiset(r) == multiset(s) + multiset{x}
  {
    if |s| == 0 then [x]
    else if x.date < s[0].date then [x] + s
    else
      var t := InsertByDate(x, s[1..]);
      assert s == [s[0]] + s[1..];
      LaterOnOrAfter(s[0], s[1..], x, t);
      [s[0]] + t
  }

  /** Rows gathered from `s` and `x`, all dated no earlier than `h`, stay dated no earlier than `h`. */
  lemma LaterOnOrAfter(h: Entry, s: seq<Entry>, x: Entry, t: seq<Entry>)
    requires forall k :: 0 <= k < |s| ==> h.date <= s[k].date
    requires h.date <= x.date && multiset(t) == multiset(s) + multiset{x}
    ensures forall k :: 0 <= k < |t| ==> h.date <= t[k].date
  {
    forall k | 0 <= k < |t| ensures h.date <= t[k].date {
      assert t[k] in multiset(t);
      if t[k] != x {
        assert t[k] in multiset(s);
        var m :| 0 <= m < |s| && s[m] == t[k];
      }
    }
  }

  /** Sort by `Data`; rows with equal dates keep their order (a stable insertion sort). */
  function SortByDate(rows: seq<Entry>): (r: seq<Entry>)
    ensures DateSorted(r)
    ensures multiset(r) == multiset(rows)
  {
    if |rows| == 0 then []
    else
      assert rows == rows[..|rows| - 1] + [rows[|rows| - 1]];
      InsertByDate(rows[|rows| - 1], SortByDate(rows[..|rows| - 1]))
  }

  /**
   * `after`/`saldo` is an outcome of `recalculate_data` on `before`: the rows are a
   * rearrangement of `before` in non-decreasing `Data` order (rows with equal
   * dates in any order) and `saldo` is their running balance.
   */
  predicate Recomputed(before: seq<Entry>, after: seq<Entry>, saldo: seq<int>) {
    multiset(after) == multiset(before) && DateSorted(after) && Balanced(after, saldo)
  }

  /** After a recomputation the last balance is the total of the rows before it, whatever the tie order. */
  lemma {:induction false} RecomputedLastBalance(before: seq<Entry>, after: seq<Entry>, saldo: seq<int>)
    requires Recomputed(before, after, saldo) && |before| > 0
    ensures |after| == |before| && saldo[|after| - 1] == Total(before)
  {
    assert |after| == |multiset(after)| == |multiset(before)| == |before|;
    LastBalanceIsTotal(after, saldo);
    SumIfPermutation(after, before, Always);
  }

  // ---------------------------------------------------------------- get_total_amount_by_day

  predicate Increasing(ds: seq<Date>) {
    forall i, j :: 0 <= i < j < |ds| ==> ds[i] < ds[j]
  }

  /** Some row is dated `d`. */
  predicate HasDate(rows: seq<Entry>, d: Date) {
    exists i :: 0 <= i < |rows| && rows[i].date == d
  }

  function InsertDate(d: Date, ds: seq<Date>): (r: seq<Date>)
    requires Increasing(ds)
    ensures Increasing(r)
    ensures forall e :: e in r <==> e == d || e in ds
  {
    if |ds| == 0 then [d]
    else if d == ds[0] then ds
    else if d < ds[0] then [d] + ds
    else
      var t := InsertDate(d, ds[1..]);
      assert forall e :: e in ds <==> e == ds[0] || e in ds[1..] by {
        assert ds == [ds[0]] + ds[1..];
      }
      assert forall k :: 0 <= k < |t| ==> ds[0] < t[k] by {
        forall k | 0 <= k < |t| ensures ds[0] < t[k] {
          assert t[k] in t;
          if t[k] != d {
            var m :| 0 <= m < |ds[1..]| && ds[1..][m] == t[k];
            assert ds[1 + m] == t[k];
          }
        }
      }
      [ds[0]] + t
  }

  /** The distinct dates of the rows, ascending. */
  function Dates(rows: seq<Entry>): (r: seq<Date>)
    ensures Increasing(r)
    ensures forall d :: d in r <==> HasDate(rows, d)
  {
    if |rows| == 0 then []
    else
      var init := rows[..|rows| - 1];
      var ds := InsertDate(rows[|rows| - 1].date, Dates(init));
      assert forall d :: HasDate(rows, d) <==> HasDate(init, d) || d == rows[|rows| - 1].date by {
        forall d ensures HasDate(rows, d) <==> HasDate(init, d) || d == rows[|rows| - 1].date {
          if HasDate(rows, d) {
            var i :| 0 <= i < |rows| && rows[i].date == d;
            if i < |rows| - 1 { assert init[i].date == d; }
          }
          if HasDate(init, d) {
            var i :| 0 <= i < |init| && init[i].date == d;
            assert rows[i].date == d;
          }
        }
      }
      ds
  }

  /** Position of the last row dated `d`: what `.last().over('Data')` picks. */
  function LastIndexOn(rows: seq<Entry>, d: Date): (r: Option<nat>)
    ensures r.Some? ==> r.value < |rows| && rows[r.value].date == d
    ensures r.Some? ==> forall j :: r.value < j < |rows| ==> rows[j].date != d
    ensures r.None? ==> !HasDate(rows, d)
  {
    if |rows| == 0 then None
    else if rows[|rows| - 1].date == d then Some(|rows| - 1)
    else
      var r := LastIndexOn(rows[..|rows| - 1], d);
      assert forall i :: 0 <= i < |rows| - 1 ==> rows[i] == rows[..|rows| - 1][i];
      r
  }

  /** Each date of `ds` paired with the balance of the last row of that date. */
  function DayEnds(rows: seq<Entry>, saldo: seq<int>, ds: seq<Date>): (r: seq<(Date, int)>)
    requires |saldo| == |rows|
    requires forall k :: 0 <= k < |ds| ==> HasDate(rows, ds[k])
    ensures |r| == |ds|
    ensures forall k :: 0 <= k < |r| ==> r[k].0 == ds[k]
    ensures forall k :: 0 <= k < |r| ==>
              LastIndexOn(rows, ds[k]).Some? && r[k].1 == saldo[LastIndexOn(rows, ds[k]).value]
  {
    seq(|ds|, k requires 0 <= k < |ds| => (ds[k], saldo[LastIndexOn(rows, ds[k]).value]))
  }

  /** The first components of `r` are the dates of `ds`. */
  lemma FirstsListed(ds: seq<Date>, r: seq<(Date, int)>)
    requires |r| == |ds| && forall k :: 0 <= k < |r| ==> r[k].0 == ds[k]
    ensures forall d :: d in ds <==> exists k :: 0 <= k < |r| && r[k].0 == d
  {
    forall d ensures d in ds <==> exists k :: 0 <= k < |r| && r[k].0 == d {
      if d in ds {
        var k :| 0 <= k < |ds| && ds[k] == d;
        assert r[k].0 == d;
      }
    }
  }

  /**
   * `get_total_amount_by_day`: one pair per distinct date, ascending, holding the
   * balance of the last row of that date in the table's current order.
   */
  function TotalAmountByDay(rows: seq<Entry>, saldo: seq<int>): (r: seq<(Date, int)>)
    requires |saldo| == |rows|
    ensures forall i, j :: 0 <= i < j < |r| ==> r[i].0 < r[j].0
    ensures forall d :: HasDate(rows, d) <==> exists k :: 0 <= k < |r| && r[k].0 == d
    ensures forall k :: 0 <= k < |r| ==>
              LastIndexOn(rows, r[k].0).Some? && r[k].1 == saldo[LastIndexOn(rows, r[k].0).value]
  {
    var ds := Dates(rows);
    assert forall k :: 0 <= k < |ds| ==> HasDate(rows, ds[k]);
    var r := DayEnds(rows, saldo, ds);
    FirstsListed(ds, r);
    r
  }

  /** In date-sorted rows, the prefix ending at the last row of date `d` holds exactly the rows dated on or before `d`. */
  lemma SortedPrefixIsOnOrBefore(rows: seq<Entry>, i: nat, d: Date)
    requires DateSorted(rows) && i < |rows| && rows[i].date == d
    requires forall j :: i < j < |rows| ==> rows[j].date != d
    ensures Total(rows[..i + 1]) == SumIf(rows, OnOrBefore(d))
  {
    var pre, post := rows[..i + 1], rows[i + 1..];
    assert rows == pre + post;
    forall k | 0 <= k < |pre| ensures OnOrBefore(d)(pre[k]) == Always(pre[k]) {
      assert pre[k] == rows[k];
    }
    forall k | 0 <= k < |post| ensures !OnOrBefore(d)(post[k]) {
      assert post[k] == rows[i + 1 + k];
      assert rows[i].date <= rows[i + 1 + k].date;
    }
    SumIfConcat(pre, post, OnOrBefore(d));
    SumIfAllOrNone(pre, OnOrBefore(d), Always);
    SumIfAllOrNone(post, OnOrBefore(d), Always);
  }

  /** Where `p` agrees with `q` on every row the sums agree, and where `p` holds of no row the sum is zero. */
  lemma {:induction false} SumIfAllOrNone(rows: seq<Entry>, p: Entry -> bool, q: Entry -> bool)
    ensures (forall k :: 0 <= k < |rows| ==> p(rows[k]) == q(rows[k])) ==> SumIf(rows, p) == SumIf(rows, q)
    ensures (forall k :: 0 <= k < |rows| ==> !p(rows[k])) ==> SumIf(rows, p) == 0
    decreases |rows|
  {
    if |rows| > 0 {
      SumIfAllOrNone(rows[..|rows| - 1], p, q);
    }
  }

  /**
   * After a recomputation, each daily balance is the sum of `Valor` over every row
   * dated on or before that day.
   */
  lemma DayEndIsCumulative(rows: seq<Entry>, saldo: seq<int>, k: nat)
    requires DateSorted(rows) && Balanced(rows, saldo)
    requires k < |TotalAmountByDay(rows, saldo)|
    ensures TotalAmountByDay(rows, saldo)[k].1 == SumIf(rows, OnOrBefore(TotalAmountByDay(rows, saldo)[k].0))
  {
    var r := TotalAmountByDay(rows, saldo);
    var d := r[k].0;
    var i := LastIndexOn(rows, d).value;
    SortedPrefixIsOnOrBefore(rows, i, d);
  }

  lemma IncreasingHead(a: seq<Date>)
    requires Increasing(a) && |a| > 0
    ensures forall d :: d in a ==> a[0] <= d
    ensures Increasing(a[1..])
    ensures forall d :: d in a[1..] <==> d in a && d != a[0]
  {
    assert a == [a[0]] + a[1..];
    assert forall m :: 0 <= m < |a[1..]| ==> a[1..][m] == a[m + 1];
  }

  lemma SameMembersEmpty(a: seq<Date>, b: seq<Date>)
    requires forall d :: d in a <==> d in b
    requires |a| == 0
    ensures |b| == 0
  {
    var first := if |b| > 0 then b[0] else 0;
    assert |b| > 0 ==> first in b;
  }

  /** Two increasing sequences with the same members are equal. */
  lemma {:induction false} IncreasingUnique(a: seq<Date>, b: seq<Date>)
    requires Increasing(a) && Increasing(b)
    requires forall d :: d in a <==> d in b
    ensures a == b
    decreases |a|
  {
    if |a| == 0 {
      SameMembersEmpty(a, b);
    } else if |b| == 0 {
      SameMembersEmpty(b, a);
    } else {
      IncreasingHead(a);
      IncreasingHead(b);
      assert a[0] in a && b[0] in b;
      assert a[0] == b[0];
      IncreasingUnique(a[1..], b[1..]);
      assert a == [a[0]] + a[1..] && b == [b[0]] + b[1..];
    }
  }

  /**
   * Whichever order a recomputation leaves rows with equal dates in, the daily
   * balances come out the same.
   */
  lemma DayTotalsIgnoreTieOrder(before: seq<Entry>, r1: seq<Entry>, s1: seq<int>, r2: seq<Entry>, s2: seq<int>)
    requires Recomputed(before, r1, s1) && Recomputed(before, r2, s2)
    ensures TotalAmountByDay(r1, s1) == TotalAmountByDay(r2, s2)
  {
    assert forall d :: HasDate(r1, d) <==> HasDate(r2, d) by {
      forall d ensures HasDate(r1, d) ==> HasDate(r2, d) {
        if HasDate(r1, d) {
          var i :| 0 <= i < |r1| && r1[i].date == d;
          assert r1[i] in multiset(r2);
          var j :| 0 <= j < |r2| && r2[j] == r1[i];
        }
      }
      forall d ensures HasDate(r2, d) ==> HasDate(r1, d) {
        if HasDate(r2, d) {
          var i :| 0 <= i < |r2| && r2[i].date == d;
          assert r2[i] in multiset(r1);
          var j :| 0 <= j < |r1| && r1[j] == r2[i];
        }
      }
    }
    IncreasingUnique(Dates(r1), Dates(r2));
    var t1, t2 := TotalAmountByDay(r1, s1), TotalAmountByDay(r2, s2);
    assert |t1| == |Dates(r1)| && |t2| == |Dates(r2)|;
    forall k | 0 <= k < |t1| ensures t1[k] == t2[k] {
      DayEndIsCumulative(r1, s1, k);
      DayEndIsCumulative(r2, s2, k);
      SumIfPermutation(r1, r2, OnOrBefore(t1[k].0));
    }
  }

  // ---------------------------------------------------------------- get_pix_data

  /** One row of `get_pix_data`: a (`Data`, `Categoria`) pair and its summed `Valor`. */
  datatype Group = Group(date: Date, categoria: string, valor: int)

  type Key = (Date, string)

  function KeyOf(e: Entry): Key { (e.date, e.categoria) }

  predicate KeysSorted(ks: seq<Key>) {
    forall i, j :: 0 <= i < j < |ks| ==> ks[i].0 <= ks[j].0
  }

  predicate KeysDistinct(ks: seq<Key>) {
    forall i, j :: 0 <= i < j < |ks| ==> ks[i] != ks[j]
  }

  /** Some row belongs to group `k`. */
  predicate HasKey(rows: seq<Entry>, k: Key) {
    exists i :: 0 <= i < |rows| && KeyOf(rows[i]) == k
  }

  function InsertKey(k: Key, ks: seq<Key>): (r: seq<Key>)
    requires KeysSorted(ks) && KeysDistinct(ks)
    ensures KeysSorted(r) && KeysDistinct(r)
    ensures forall q :: q in r <==> q == k || q in ks
  {
    if k in ks then ks
    else if |ks| == 0 then [k]
    else if k.0 < ks[0].0 then [k] + ks
    else
      assert ks == [ks[0]] + ks[1..];
      var t := InsertKey(k, ks[1..]);
      assert ks[0] !in ks[1..];
      assert forall m :: 0 <= m < |t| ==> ks[0].0 <= t[m].0 && ks[0] != t[m] by {
        forall m | 0 <= m < |t| ensures ks[0].0 <= t[m].0 && ks[0] != t[m] {
          assert t[m] in t;
          if t[m] != k {
            var n :| 0 <= n < |ks[1..]| && ks[1..][n] == t[m];
            assert ks[1 + n] == t[m];
          }
        }
      }
      [ks[0]] + t
  }

  /** The distinct (`Data`, `Categoria`) pairs of the rows, sorted by date. */
  function GroupKeys(rows: seq<Entry>): (r: seq<Key>)
    ensures KeysSorted(r) && KeysDistinct(r)
    ensures forall k :: k in r <==> HasKey(rows, k)
  {
    if |rows| == 0 then []
    else
      var init := rows[..|rows| - 1];
      assert forall k :: HasKey(rows, k) <==> HasKey(init, k) || k == KeyOf(rows[|rows| - 1]) by {
        forall k ensures HasKey(rows, k) <==> HasKey(init, k) || k == KeyOf(rows[|rows| - 1]) {
          if HasKey(rows, k) {
            var i :| 0 <= i < |rows| && KeyOf(rows[i]) == k;
            if i < |rows| - 1 { assert KeyOf(init[i]) == k; }
          }
          if HasKey(init, k) {
            var i :| 0 <= i < |init| && KeyOf(init[i]) == k;
            assert KeyOf(rows[i]) == k;
          }
        }
      }
      InsertKey(KeyOf(rows[|rows| - 1]), GroupKeys(init))
  }

  function Groups(rows: seq<Entry>, ks: seq<Key>): seq<Group> {
    seq(|ks|, i requires 0 <= i < |ks| => Group(ks[i].0, ks[i].1, SumIf(rows, InGroup(ks[i].0, ks[i].1))))
  }

  /**
   * `get_pix_data`: one entry per distinct (`Data`, `Categoria`) pair with the sum of
   * its rows' `Valor`, sorted by `Data` (pairs of one date in no promised order).
   */
  function PixData(rows: seq<Entry>): (r: seq<Group>)
    ensures forall i, j :: 0 <= i < j < |r| ==> r[i].date <= r[j].date
    ensures forall i, j :: 0 <= i < j < |r| ==> (r[i].date, r[i].categoria) != (r[j].date, r[j].categoria)
    ensures forall k :: HasKey(rows, k) <==> exists i :: 0 <= i < |r| && (r[i].date, r[i].categoria) == k
    ensures forall i :: 0 <= i < |r| ==> r[i].valor == SumIf(rows, InGroup(r[i].date, r[i].categoria))
  {
    var ks := GroupKeys(rows);
    var r := Groups(rows, ks);
    assert forall i :: 0 <= i < |r| ==> (r[i].date, r[i].categoria) == ks[i];
    assert forall k :: k in ks <==> exists i :: 0 <= i < |r| && (r[i].date, r[i].categoria) == k by {
      forall k ensures k in ks ==> exists i :: 0 <= i < |r| && (r[i].date, r[i].categoria) == k {
        if k in ks {
          var i :| 0 <= i < |ks| && ks[i] == k;
          assert (r[i].date, r[i].categoria) == k;
        }
      }
    }
    r
  }

  /** Sum of `Valor` over groups. */
  function GroupTotal(gs: seq<Group>): int {
    if |gs| == 0 then 0 else GroupTotal(gs[..|gs| - 1]) + gs[|gs| - 1].valor
  }

  /** How much of row `x` the groups `ks` count: `x.valor` once for every key equal to its own. */
  function Hits(x: Entry, ks: seq<Key>): int {
    if |ks| == 0 then 0
    else Hits(x, ks[..|ks| - 1]) + (if KeyOf(x) == ks[|ks| - 1] then x.valor else 0)
  }

  lemma {:induction false} HitsDistinct(x: Entry, ks: seq<Key>)
    requires KeysDistinct(ks)
    ensures Hits(x, ks) == if KeyOf(x) in ks then x.valor else 0
    decreases |ks|
  {
    if |ks| > 0 {
      var init := ks[..|ks| - 1];
      HitsDistinct(x, init);
      assert ks == init + [ks[|ks| - 1]];
      assert ks[|ks| - 1] !in init;
    }
  }

  lemma {:induction false} GroupsAppendRow(p: seq<Entry>, x: Entry, ks: seq<Key>)
    ensures GroupTotal(Groups(p + [x], ks)) == GroupTotal(Groups(p, ks)) + Hits(x, ks)
    decreases |ks|
  {
    if |ks| > 0 {
      var init := ks[..|ks| - 1];
      GroupsAppendRow(p, x, init);
      assert Groups(p + [x], ks)[..|ks| - 1] == Groups(p + [x], init);
      assert Groups(p, ks)[..|ks| - 1] == Groups(p, init);
      var k := ks[|ks| - 1];
      assert (p + [x])[..|p + [x]| - 1] == p;
      assert SumIf(p + [x], InGroup(k.0, k.1)) == SumIf(p, InGroup(k.0, k.1)) + (if KeyOf(x) == k then x.valor else 0);
    }
  }

  lemma {:induction false} GroupsOfNoRows(ks: seq<Key>)
    ensures GroupTotal(Groups([], ks)) == 0
    decreases |ks|
  {
    if |ks| > 0 {
      GroupsOfNoRows(ks[..|ks| - 1]);
      assert Groups([], ks)[..|ks| - 1] == Groups([], ks[..|ks| - 1]);
    }
  }

  /** Distinct groups that cover every row split the total without loss or double counting. */
  lemma {:induction false} GroupsAddUp(rows: seq<Entry>, ks: seq<Key>)
    requires KeysDistinct(ks)
    requires forall i :: 0 <= i < |rows| ==> KeyOf(rows[i]) in ks
    ensures GroupTotal(Groups(rows, ks)) == Total(rows)
    decreases |rows|
  {
    if |rows| == 0 {
      GroupsOfNoRows(ks);
    } else {
      var p, x := rows[..|rows| - 1], rows[|rows| - 1];
      assert rows == p + [x];
      GroupsAddUp(p, ks);
      GroupsAppendRow(p, x, ks);
      HitsDistinct(x, ks);
    }
  }

  /** The group sums of `get_pix_data` add up to the total of the table. */
  lemma PixDataAddsUp(rows: seq<Entry>)
    ensures GroupTotal(PixData(rows)) == Total(rows)
  {
    var ks := GroupKeys(rows);
    assert forall i :: 0 <= i < |rows| ==> HasKey(rows, KeyOf(rows[i]));
    GroupsAddUp(rows, ks);
  }
}
