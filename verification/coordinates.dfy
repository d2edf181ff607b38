/**
 * The server's coordinate translation. Columns are 1-based inside the
 * parser and 0-based at the editor boundary: incoming indices get one
 * added, outgoing columns get one subtracted and are clamped at zero.
 * Lines are passed through (and clamped at zero on the way out).
 */
module Coordinates {
  import opened Machine

  /** An editor index as a parser column: `index + 1` in unchecked `int` arithmetic. */
  function ColumnOfIndex(index: int32): (column: int32)
    ensures index < MaxInt32 ==> column == index + 1
    ensures index == MaxInt32 ==> column == MinInt32
  {
    Wrap32(index + 1)
  }

  /**
   * A parser column as an editor index: `Math.Max(0, column - 1)`. The
   * subtraction is unchecked, so the smallest `int` wraps to the largest
   * before the clamp, the one column the clamp does not send to zero.
   */
  function IndexOfColumn(column: int32): (index: int32)
    ensures index >= 0
    ensures column >= 1 ==> index == column - 1
    ensures column == 0 ==> index == 0
    ensures column < 0 ==> index == (if column == MinInt32 then MaxInt32 else 0)
  {
    Max0(Wrap32(column - 1))
  }

  /** A parser line as an editor line: `Math.Max(0, line)`. */
  function LineOut(line: int32): (r: int32)
    ensures r >= 0
    ensures line >= 0 ==> r == line
  {
    Max0(line)
  }

  /**
   * An index that goes in and comes back out is unchanged when it is a
   * valid (non-negative) index, and clamped to zero otherwise, even at the
   * largest `int` where the incoming addition wraps.
   */
  lemma IndexRoundTrip(index: int32)
    ensures IndexOfColumn(ColumnOfIndex(index)) == Max0(index)
  {
    IncDecInverse(index);
  }

  /** A column the parser reports (1 or more) survives the trip out and back in. */
  lemma ColumnRoundTrip(column: int32)
    requires column >= 1
    ensures ColumnOfIndex(IndexOfColumn(column)) == column
  {
    DecIncInverse(column);
  }
}
