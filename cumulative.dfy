/**
 * The cumulative-revenue column: for every order, `cumulative(row)` sums the `total_price`
 * column from the first row up to and including that row, and `df.apply` stores the results
 * as a new column. Prices are whole numbers of cents, so sums are exact. The frame has the
 * default range index, so a row's label `row.name` is its position.
 */
module Cumulative {

  /** One row of the query result: an order and its total price in cents. */
  datatype Order = Order(orderId: int, totalPrice: int)

  /** One row after the new column has been added. */
  datatype ReportRow = ReportRow(orderId: int, totalPrice: int, cumulative: int)

  /** The sum of a sequence of amounts. */
  function Sum(s: seq<int>): int {
    if s == [] then 0 else Sum(s[..|s| - 1]) + s[|s| - 1]
  }

  /** The `total_price` column. */
  function Prices(df: seq<Order>): (prices: seq<int>)
    ensures |prices| == |df|
    ensures forall i :: 0 <= i < |df| ==> prices[i] == df[i].totalPrice
  {
    if df == [] then [] else Prices(df[..|df| - 1]) + [df[|df| - 1].totalPrice]
  }

  /** `cumulative(row)` for the row at position `name`: `df['total_price'][0:name + 1].sum()`. */
  function CumulativeAt(df: seq<Order>, name: nat): int
    requires name < |df|
  {
    Sum(Prices(df)[..name + 1])
  }

  /** `df.apply(cumulative, axis=1)`: the function applied to every row, in row order. */
  function CumulativeColumn(df: seq<Order>): seq<int> {
    seq(|df|, i requires 0 <= i < |df| => CumulativeAt(df, i))
  }

  /** `df['cumulative'] = ...`: the frame with the new column, the old columns untouched. */
  function WithCumulative(df: seq<Order>): (report: seq<ReportRow>)
    ensures |report| == |df|
    ensures forall i :: 0 <= i < |df| ==>
      report[i].orderId == df[i].orderId && report[i].totalPrice == df[i].totalPrice
    ensures forall i :: 0 <= i < |df| ==> report[i].cumulative == Sum(Prices(df)[..i + 1])
  {
    var column := CumulativeColumn(df);
    seq(|df|, i requires 0 <= i < |df| => ReportRow(df[i].orderId, df[i].totalPrice, column[i]))
  }

  /** Summing distributes over concatenation. */
  lemma {:induction false} SumAppend(a: seq<int>, b: seq<int>)
    ensures Sum(a + b) == Sum(a) + Sum(b)
    decreases |b|
  {
    if b == [] {
      assert a + b == a;
    } else {
      var n := |b| - 1;
      assert (a + b)[..|a + b| - 1] == a + b[..n];
      SumAppend(a, b[..n]);
    }
  }

  /** The first row's running total is its own price. */
  lemma CumulativeFirst(df: seq<Order>)
    requires |df| > 0
    ensures CumulativeColumn(df)[0] == df[0].totalPrice
  {
    var p := Prices(df)[..1];
    assert CumulativeColumn(df)[0] == Sum(p);
    assert p[..0] == [];
    assert Sum(p) == Sum(p[..0]) + p[0];
  }

  /** Each later row adds its own price to the previous row's running total. */
  lemma CumulativeStep(df: seq<Order>, i: nat)
    requires 0 < i < |df|
    ensures CumulativeColumn(df)[i] == CumulativeColumn(df)[i - 1] + df[i].totalPrice
  {
    assert Prices(df)[..i + 1][..i] == Prices(df)[..i];
  }

  /** The last running total is the total of the whole price column. */
  lemma CumulativeLast(df: seq<Order>)
    requires |df| > 0
    ensures CumulativeColumn(df)[|df| - 1] == Sum(Prices(df))
  {
    assert Prices(df)[..|df|] == Prices(df);
  }

  /** With no negative price, the running totals never decrease. */
  lemma {:induction false} CumulativeMonotone(df: seq<Order>, i: nat, j: nat)
    requires i <= j < |df|
    requires forall k :: 0 <= k < |df| ==> df[k].totalPrice >= 0
    ensures CumulativeColumn(df)[i] <= CumulativeColumn(df)[j]
    decreases j - i
  {
    if i < j {
      CumulativeMonotone(df, i, j - 1);
      CumulativeStep(df, j);
    }
  }

  /**
   * An independent definition of the same column: a single left-to-right pass that carries
   * the running total, as `Series.cumsum` would compute it.
   */
  function RunningTotals(carried: int, prices: seq<int>): (totals: seq<int>)
    ensures |totals| == |prices|
    decreases prices
  {
    if prices == [] then []
    else [carried + prices[0]] + RunningTotals(carried + prices[0], prices[1..])
  }

  lemma {:induction false} RunningTotalsAt(carried: int, prices: seq<int>, i: nat)
    requires i < |prices|
    ensures RunningTotals(carried, prices)[i] == carried + Sum(prices[..i + 1])
    decreases i
  {
    if i == 0 {
      assert prices[..1] == [] + [prices[0]];
    } else {
      RunningTotalsAt(carried + prices[0], prices[1..], i - 1);
      assert prices[..i + 1] == [prices[0]] + prices[1..][..i];
      SumAppend([prices[0]], prices[1..][..i]);
      assert [prices[0]][..0] == [];
    }
  }

  /** The row-by-row `apply` gives exactly the single-pass running totals. */
  lemma CumulativeIsRunningTotal(df: seq<Order>)
    ensures CumulativeColumn(df) == RunningTotals(0, Prices(df))
  {
    forall i | 0 <= i < |df|
      ensures CumulativeColumn(df)[i] == RunningTotals(0, Prices(df))[i]
    {
      RunningTotalsAt(0, Prices(df), i);
    }
  }
}
