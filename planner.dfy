/** How the file is cut into one byte range per worker, before any alignment
    to lines. */
module Planner {

  /** The half-open byte range `[start, end)` handed to one worker. */
  datatype Range = Range(start: nat, end: nat)

  lemma MulMonotoneNat(a: nat, b: nat, c: nat)
    requires a <= b
    ensures c * a <= c * b
  {
    assert c * b - c * a == c * (b - a);
  }

  /** `chunk_size = file_size // n` and range `i` is
      `[chunk_size * i, chunk_size * (i + 1))`: equal, contiguous ranges from
      offset 0; the last ends at the largest multiple of `n` not above the
      size, so the final `size % n` bytes belong to no range, and when the
      file is smaller than `n` every range is empty. */
  function PlanChunks(size: nat, n: nat): (r: seq<Range>)
    requires n >= 1
    ensures |r| == n
    ensures r[0].start == 0
    ensures forall i | 0 <= i < n - 1 :: r[i].end == r[i + 1].start
    ensures forall i | 0 <= i < n :: r[i].start <= r[i].end && r[i].end - r[i].start == size / n
    ensures forall i, j | 0 <= i <= j < n :: r[i].end <= r[j].end
    ensures r[n - 1].end == size - size % n && size - r[n - 1].end < n
    ensures size < n ==> forall i | 0 <= i < n :: r[i].start == r[i].end == 0
    ensures size >= n ==> forall i | 0 <= i < n :: r[i].start < r[i].end
  {
    var cs := size / n;
    var r := seq(n, i requires 0 <= i < n => Range(cs * i, cs * (i + 1)));
    PlanArithmetic(size, n, r);
    r
  }

  lemma PlanArithmetic(size: nat, n: nat, r: seq<Range>)
    requires n >= 1 && |r| == n
    requires forall i | 0 <= i < n :: r[i] == Range((size / n) * i, (size / n) * (i + 1))
    ensures r[0].start == 0
    ensures forall i | 0 <= i < n - 1 :: r[i].end == r[i + 1].start
    ensures forall i | 0 <= i < n :: r[i].start <= r[i].end && r[i].end - r[i].start == size / n
    ensures forall i, j | 0 <= i <= j < n :: r[i].end <= r[j].end
    ensures r[n - 1].end == size - size % n && size - r[n - 1].end < n
    ensures size < n ==> forall i | 0 <= i < n :: r[i].start == r[i].end == 0
    ensures size >= n ==> forall i | 0 <= i < n :: r[i].start < r[i].end
  {
    var cs := size / n;
    forall i | 0 <= i < n ensures r[i].start <= r[i].end && r[i].end - r[i].start == cs {
      Distribute(cs, i);
    }
    forall i, j | 0 <= i <= j < n ensures r[i].end <= r[j].end {
      MulMonotoneNat(i + 1, j + 1, cs);
    }
    DivisionRemainder(size, n);
    if size < n {
      forall i | 0 <= i < n ensures r[i].start == r[i].end == 0 {
        ZeroTimes(i);
      }
    }
  }

  lemma Distribute(c: nat, i: nat)
    ensures c * (i + 1) == c * i + c
  {
  }

  lemma ZeroTimes(i: nat)
    ensures 0 * i == 0 && 0 * (i + 1) == 0
  {
  }

  lemma DivisionRemainder(size: nat, n: nat)
    requires n >= 1
    ensures (size / n) * n == size - size % n && 0 <= size % n < n
    ensures size < n ==> size / n == 0
    ensures size >= n ==> size / n >= 1
  {
  }
}
