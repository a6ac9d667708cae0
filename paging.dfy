/**
 * `DFPlus.print_with_headers`: a data frame is printed in chunks of ten rows, each chunk
 * printed by the frame's own formatter and so carrying the column headers. The frame is a
 * sequence of rows; each printed chunk is returned as one page instead of being printed.
 */
module Paging {

  /** The number of rows printed under one header. */
  const PageSize: nat := 10

  function Min(a: int, b: int): int {
    if a <= b then a else b
  }

  /** Pages needed for n rows: n / PageSize rounded up. */
  function PageCount(n: nat): nat {
    (n + PageSize - 1) / PageSize
  }

  /** The rows the k-th chunk covers, as the positional slice `iloc[10k : 10k + 10]` gives them. */
  function Chunk<Row>(frame: seq<Row>, k: nat): seq<Row>
    requires PageSize * k <= |frame|
  {
    frame[PageSize * k .. Min(PageSize * k + PageSize, |frame|)]
  }

  /** The pages printed one after the other. */
  function Concat<Row>(pages: seq<seq<Row>>): seq<Row> {
    if pages == [] then [] else Concat(pages[..|pages| - 1]) + pages[|pages| - 1]
  }

  /**
   * The `while pos < x` loop of print_with_headers. It returns the printed chunks and the
   * final value of `pos`. The frame itself is a value and cannot be changed by the loop.
   */
  method PrintWithHeaders<Row>(frame: seq<Row>) returns (pages: seq<seq<Row>>, pos: nat)
    ensures |pages| == PageCount(|frame|)
    ensures pos == PageSize * PageCount(|frame|)
    ensures forall k :: 0 <= k < |pages| ==> PageSize * k < |frame| && pages[k] == Chunk(frame, k)
    ensures forall k :: 0 <= k < |pages| ==> 0 < |pages[k]| <= PageSize
    ensures forall k :: 0 <= k < |pages| - 1 ==> |pages[k]| == PageSize
    ensures Concat(pages) == frame
  {
    var x := |frame|;
    pos := 0;
    pages := [];
    while pos < x
      invariant pos == PageSize * |pages|
      invariant pos <= PageSize * PageCount(x)
      invariant forall k :: 0 <= k < |pages| ==> PageSize * k < x && pages[k] == Chunk(frame, k)
      invariant forall k :: 0 <= k < |pages| - 1 ==> |pages[k]| == PageSize
      invariant Concat(pages) == frame[..Min(pos, x)]
      decreases x - pos
    {
      var page := frame[pos .. Min(pos + PageSize, x)];
      assert frame[..Min(pos + PageSize, x)] == frame[..pos] + page;
      pages := pages + [page];
      pos := pos + PageSize;
    }
    assert frame[..x] == frame;
  }
}
