/** Peak picking over a decibel spectrogram: the local maxima of a maximum filter that rise
    above a floor, listed in the array's row-major order as (time, frequency) pairs. */
module PeakPicking {

  /** Every row has the length of the first: a 2-D array. */
  predicate IsRectangular(m: seq<seq<int>>)
  {
    forall r :: 0 <= r < |m| ==> |m[r]| == |m[0]|
  }

  /** A spectrogram: one row per frequency bin, one column per time frame. */
  type Matrix = m: seq<seq<int>> | IsRectangular(m)

  function Width(m: Matrix): nat
  {
    if |m| == 0 then 0 else |m[0]|
  }

  /** The default floor a peak must exceed (`min_peak_height`). */
  const MinPeakHeight: int := 10

  /** The side of the square neighbourhood of the maximum filter. */
  const NeighbourhoodSize: nat := 20

  /** One constellation point, as `(time, frequency)`. */
  datatype Peak = Peak(time: nat, frequency: nat)

  /** Along one axis the filter centres its window of `size` cells at offset `size / 2`:
      cell `i` sees `i - size / 2` through `WindowEnd(i, size)`, both inclusive. */
  function WindowStart(i: int, size: nat): int
  {
    i - size / 2
  }

  function WindowEnd(i: int, size: nat): int
  {
    i - size / 2 + size - 1
  }

  /** `j` is inside the array and inside the window around `i`. */
  predicate InWindow(i: int, j: int, n: nat, size: nat)
  {
    0 <= j < n && WindowStart(i, size) <= j <= WindowEnd(i, size)
  }

  /** No cell in the clipped neighbourhood of (r, c) is larger: a local maximum, ties allowed. */
  ghost predicate IsLocalMax(m: Matrix, r: nat, c: nat, size: nat)
    requires r < |m| && c < Width(m)
  {
    forall r2, c2 :: InWindow(r, r2, |m|, size) && InWindow(c, c2, Width(m), size) ==> m[r2][c2] <= m[r][c]
  }

  /** The column of a largest value among `row[lo]` through `row[hi]` (`RowArgMaxIsMax`). */
  function RowArgMax(row: seq<int>, lo: nat, hi: nat): (k: nat)
    requires lo <= hi < |row|
    ensures lo <= k <= hi
    decreases hi - lo
  {
    if lo == hi then lo
    else
      var rest := RowArgMax(row, lo + 1, hi);
      if row[lo] >= row[rest] then lo else rest
  }

  lemma {:induction false} RowArgMaxIsMax(row: seq<int>, lo: nat, hi: nat)
    requires lo <= hi < |row|
    ensures forall j :: lo <= j <= hi ==> row[j] <= row[RowArgMax(row, lo, hi)]
    decreases hi - lo
  {
    if lo < hi {
      RowArgMaxIsMax(row, lo + 1, hi);
    }
  }

  /** The cell of a largest value in the block of rows `rlo..rhi` and columns `clo..chi`
      (`BlockArgMaxIsMax`). */
  function BlockArgMax(m: Matrix, rlo: nat, rhi: nat, clo: nat, chi: nat): (cell: (nat, nat))
    requires rlo <= rhi < |m| && clo <= chi < Width(m)
    ensures rlo <= cell.0 <= rhi && clo <= cell.1 <= chi
    decreases rhi - rlo
  {
    var here := (rlo, RowArgMax(m[rlo], clo, chi));
    if rlo == rhi then here
    else
      var rest := BlockArgMax(m, rlo + 1, rhi, clo, chi);
      if m[here.0][here.1] >= m[rest.0][rest.1] then here else rest
  }

  lemma {:induction false} BlockArgMaxIsMax(m: Matrix, rlo: nat, rhi: nat, clo: nat, chi: nat)
    requires rlo <= rhi < |m| && clo <= chi < Width(m)
    ensures var cell := BlockArgMax(m, rlo, rhi, clo, chi);
      forall r, c :: rlo <= r <= rhi && clo <= c <= chi ==> m[r][c] <= m[cell.0][cell.1]
    decreases rhi - rlo
  {
    RowArgMaxIsMax(m[rlo], clo, chi);
    if rlo < rhi {
      BlockArgMaxIsMax(m, rlo + 1, rhi, clo, chi);
    }
  }

  function ClipLow(i: nat, size: nat): nat
  {
    if WindowStart(i, size) < 0 then 0 else WindowStart(i, size)
  }

  function ClipHigh(i: nat, n: nat, size: nat): nat
    requires i < n && size > 0
  {
    if WindowEnd(i, size) > n - 1 then n - 1 else WindowEnd(i, size)
  }

  /** `maximum_filter` at (r, c): the largest value in the neighbourhood clipped to the array,
      which holds the cell itself. */
  function MaxFilterAt(m: Matrix, r: nat, c: nat, size: nat): (v: int)
    requires r < |m| && c < Width(m) && size > 0
    ensures m[r][c] <= v
  {
    var rlo, rhi, clo, chi := ClipLow(r, size), ClipHigh(r, |m|, size), ClipLow(c, size), ClipHigh(c, Width(m), size);
    BlockArgMaxIsMax(m, rlo, rhi, clo, chi);
    var cell := BlockArgMax(m, rlo, rhi, clo, chi);
    m[cell.0][cell.1]
  }

  /** The filtered value is the largest value of the clipped neighbourhood: no cell of it is
      larger, and some cell of it holds that value. */
  lemma MaxFilterIsWindowMax(m: Matrix, r: nat, c: nat, size: nat)
    requires r < |m| && c < Width(m) && size > 0
    ensures forall r2, c2 :: InWindow(r, r2, |m|, size) && InWindow(c, c2, Width(m), size) ==> m[r2][c2] <= MaxFilterAt(m, r, c, size)
    ensures exists r2, c2 :: InWindow(r, r2, |m|, size) && InWindow(c, c2, Width(m), size) && m[r2][c2] == MaxFilterAt(m, r, c, size)
  {
    var rlo, rhi, clo, chi := ClipLow(r, size), ClipHigh(r, |m|, size), ClipLow(c, size), ClipHigh(c, Width(m), size);
    BlockArgMaxIsMax(m, rlo, rhi, clo, chi);
    var cell := BlockArgMax(m, rlo, rhi, clo, chi);
    assert InWindow(r, cell.0, |m|, size) && InWindow(c, cell.1, Width(m), size);
  }

  /** The cell test of the source: above the floor, and equal to the filtered value; as the
      filtered value is never below the cell, equal means not below it. */
  predicate IsPeak(m: Matrix, r: nat, c: nat, minHeight: int, size: nat)
    requires r < |m| && c < Width(m) && size > 0
    ensures IsPeak(m, r, c, minHeight, size) <==> m[r][c] > minHeight && m[r][c] >= MaxFilterAt(m, r, c, size)
  {
    m[r][c] > minHeight && m[r][c] == MaxFilterAt(m, r, c, size)
  }

  /** A cell equals its filtered value exactly when it is a local maximum, ties included. */
  lemma PeakIffLocalMax(m: Matrix, r: nat, c: nat, minHeight: int, size: nat)
    requires r < |m| && c < Width(m) && size > 0
    ensures IsPeak(m, r, c, minHeight, size) <==> m[r][c] > minHeight && IsLocalMax(m, r, c, size)
  {
    MaxFilterIsWindowMax(m, r, c, size);
    assert InWindow(r, r, |m|, size) && InWindow(c, c, Width(m), size);
  }

  /** The index the filter reads for `j` under its default border mode "reflect", which mirrors
      the array about its edges: (d c b a | a b c d | d c b a). */
  function Reflect(j: int, n: nat): (k: nat)
    requires n > 0
    ensures k < n
    decreases if j < 0 then -2 * j else 2 * j + 1
  {
    if 0 <= j < n then j
    else if j < 0 then Reflect(-j - 1, n)
    else Reflect(2 * n - 1 - j, n)
  }

  /** Every index the reflecting filter reads for cell `i` lies in the clipped window of `i`. */
  lemma {:induction false} ReflectStaysInClippedWindow(i: nat, j: int, n: nat, size: nat)
    requires i < n && size > 0
    requires WindowStart(i, size) <= j <= WindowEnd(i, size)
    ensures InWindow(i, Reflect(j, n), n, size)
    decreases if j < 0 then -2 * j else 2 * j + 1
  {
    if j < 0 {
      ReflectStaysInClippedWindow(i, -j - 1, n, size);
    } else if j >= n {
      ReflectStaysInClippedWindow(i, 2 * n - 1 - j, n, size);
    }
  }

  /** The local-maximum test as the reflecting filter performs it. */
  ghost predicate IsReflectLocalMax(m: Matrix, r: nat, c: nat, size: nat)
    requires r < |m| && c < Width(m)
  {
    forall r2, c2 ::
      WindowStart(r, size) <= r2 <= WindowEnd(r, size) && WindowStart(c, size) <= c2 <= WindowEnd(c, size)
      ==> m[Reflect(r2, |m|)][Reflect(c2, Width(m))] <= m[r][c]
  }

  /** A cell is a local maximum under the "reflect" border exactly when it is one under the
      clipped window: the reflected cells are all inside that window, and it is part of what
      the filter reads. */
  lemma ReflectBorderAgreesWithClipped(m: Matrix, r: nat, c: nat, size: nat)
    requires r < |m| && c < Width(m) && size > 0
    ensures IsReflectLocalMax(m, r, c, size) <==> IsLocalMax(m, r, c, size)
  {
    if IsLocalMax(m, r, c, size) {
      forall r2, c2 | WindowStart(r, size) <= r2 <= WindowEnd(r, size) && WindowStart(c, size) <= c2 <= WindowEnd(c, size)
        ensures m[Reflect(r2, |m|)][Reflect(c2, Width(m))] <= m[r][c]
      {
        ReflectStaysInClippedWindow(r, r2, |m|, size);
        ReflectStaysInClippedWindow(c, c2, Width(m), size);
      }
    }
    if IsReflectLocalMax(m, r, c, size) {
      forall r2, c2 | InWindow(r, r2, |m|, size) && InWindow(c, c2, Width(m), size)
        ensures m[r2][c2] <= m[r][c]
      {
        assert Reflect(r2, |m|) == r2 && Reflect(c2, Width(m)) == c2;
      }
    }
  }

  /** The cell test of the source, with the filter read under its "reflect" border. */
  lemma PeakIffReflectLocalMax(m: Matrix, r: nat, c: nat, minHeight: int, size: nat)
    requires r < |m| && c < Width(m) && size > 0
    ensures IsPeak(m, r, c, minHeight, size) <==> m[r][c] > minHeight && IsReflectLocalMax(m, r, c, size)
  {
    PeakIffLocalMax(m, r, c, minHeight, size);
    ReflectBorderAgreesWithClipped(m, r, c, size);
  }

  /** `p` comes strictly before `q` in row-major order: frequency outer, time inner. */
  predicate RowMajorBefore(p: Peak, q: Peak)
  {
    p.frequency < q.frequency || (p.frequency == q.frequency && p.time < q.time)
  }

  /** The cells of a boolean mask that hold `true`, as (row, column) pairs in row-major order:
      what `np.where` yields, its two index arrays zipped. */
  function Where(mask: seq<seq<bool>>): (cells: seq<(nat, nat)>)
    ensures forall k :: 0 <= k < |cells| ==>
      cells[k].0 < |mask| && cells[k].1 < |mask[cells[k].0]| && mask[cells[k].0][cells[k].1]
    ensures forall r, c :: 0 <= r < |mask| && 0 <= c < |mask[r]| && mask[r][c] ==> (r, c) in cells
    ensures forall k1, k2 :: 0 <= k1 < k2 < |cells| ==>
      cells[k1].0 < cells[k2].0 || (cells[k1].0 == cells[k2].0 && cells[k1].1 < cells[k2].1)
  {
    WhereFrom(mask, 0)
  }

  /** `Where` restricted to the rows from `r` on. */
  function WhereFrom(mask: seq<seq<bool>>, r: nat): (cells: seq<(nat, nat)>)
    requires r <= |mask|
    ensures forall k :: 0 <= k < |cells| ==>
      r <= cells[k].0 < |mask| && cells[k].1 < |mask[cells[k].0]| && mask[cells[k].0][cells[k].1]
    ensures forall r2, c :: r <= r2 < |mask| && 0 <= c < |mask[r2]| && mask[r2][c] ==> (r2, c) in cells
    ensures forall k1, k2 :: 0 <= k1 < k2 < |cells| ==>
      cells[k1].0 < cells[k2].0 || (cells[k1].0 == cells[k2].0 && cells[k1].1 < cells[k2].1)
    decreases |mask| - r
  {
    if r == |mask| then []
    else WhereInRow(mask[r], r, 0) + WhereFrom(mask, r + 1)
  }

  /** The true cells of row `r` (whose values are `row`) from column `c` on. */
  function WhereInRow(row: seq<bool>, r: nat, c: nat): (cells: seq<(nat, nat)>)
    requires c <= |row|
    ensures forall k :: 0 <= k < |cells| ==> cells[k].0 == r && c <= cells[k].1 < |row| && row[cells[k].1]
    ensures forall c2 :: c <= c2 < |row| && row[c2] ==> (r, c2) in cells
    ensures forall k1, k2 :: 0 <= k1 < k2 < |cells| ==> cells[k1].1 < cells[k2].1
    decreases |row| - c
  {
    if c == |row| then []
    else
      var rest := WhereInRow(row, r, c + 1);
      if row[c] then [(r, c)] + rest else rest
  }

  /** `(spectrogram_db > min_peak_height) & (maximum_filter(spectrogram_db, size) == spectrogram_db)`. */
  function PeakMask(m: Matrix, minHeight: int, size: nat): (mask: seq<seq<bool>>)
    requires size > 0
    ensures |mask| == |m|
    ensures forall r :: 0 <= r < |m| ==> |mask[r]| == Width(m)
    ensures forall r, c :: 0 <= r < |m| && 0 <= c < Width(m) ==> mask[r][c] == IsPeak(m, r, c, minHeight, size)
  {
    seq(|m|, r requires 0 <= r < |m| =>
      seq(Width(m), c requires 0 <= c < Width(m) => IsPeak(m, r, c, minHeight, size)))
  }

  /** The audio fingerprint of a spectrogram: every cell above the floor that equals its
      filtered value, once each, in row-major order (frequency outer, time inner), with each
      (frequency, time) index pair swapped to (time, frequency). */
  function Peaks(m: Matrix, minHeight: int, size: nat): (peaks: seq<Peak>)
    requires size > 0
    ensures forall k :: 0 <= k < |peaks| ==>
      peaks[k].frequency < |m| && peaks[k].time < Width(m) && IsPeak(m, peaks[k].frequency, peaks[k].time, minHeight, size)
    ensures forall f, t :: 0 <= f < |m| && 0 <= t < Width(m) && IsPeak(m, f, t, minHeight, size) ==> Peak(t, f) in peaks
    ensures forall k1, k2 :: 0 <= k1 < k2 < |peaks| ==> RowMajorBefore(peaks[k1], peaks[k2])
  {
    var mask := PeakMask(m, minHeight, size);
    var peaks := Swapped(Where(mask));
    PeaksOfMaskCorrect(m, minHeight, size, mask, peaks);
    peaks
  }

  /** The list read off the peak mask is sound, complete and in strictly row-major order. */
  lemma PeaksOfMaskCorrect(m: Matrix, minHeight: int, size: nat, mask: seq<seq<bool>>, peaks: seq<Peak>)
    requires size > 0 && mask == PeakMask(m, minHeight, size) && peaks == Swapped(Where(mask))
    ensures forall k :: 0 <= k < |peaks| ==>
      peaks[k].frequency < |m| && peaks[k].time < Width(m) && IsPeak(m, peaks[k].frequency, peaks[k].time, minHeight, size)
    ensures forall f, t :: 0 <= f < |m| && 0 <= t < Width(m) && IsPeak(m, f, t, minHeight, size) ==> Peak(t, f) in peaks
    ensures forall k1, k2 :: 0 <= k1 < k2 < |peaks| ==> RowMajorBefore(peaks[k1], peaks[k2])
  {
    var cells := Where(mask);
    forall k1, k2 | 0 <= k1 < k2 < |peaks|
      ensures RowMajorBefore(peaks[k1], peaks[k2])
    {
      assert peaks[k1] == Peak(cells[k1].1, cells[k1].0) && peaks[k2] == Peak(cells[k2].1, cells[k2].0);
    }
    SwappedCellsAreSet(mask, peaks);
    PeaksOfMaskSound(m, minHeight, size, mask, peaks);
    PeaksOfMaskComplete(m, minHeight, size, mask, peaks);
  }

  /** Every pair naming a set cell of the peak mask names a peak. */
  lemma PeaksOfMaskSound(m: Matrix, minHeight: int, size: nat, mask: seq<seq<bool>>, peaks: seq<Peak>)
    requires size > 0 && mask == PeakMask(m, minHeight, size)
    requires forall k :: 0 <= k < |peaks| ==>
      peaks[k].frequency < |mask| && peaks[k].time < |mask[peaks[k].frequency]| && mask[peaks[k].frequency][peaks[k].time]
    ensures forall k :: 0 <= k < |peaks| ==>
      peaks[k].frequency < |m| && peaks[k].time < Width(m) && IsPeak(m, peaks[k].frequency, peaks[k].time, minHeight, size)
  {
    forall k | 0 <= k < |peaks|
      ensures peaks[k].frequency < |m| && peaks[k].time < Width(m) && IsPeak(m, peaks[k].frequency, peaks[k].time, minHeight, size)
    {
      MaskIsPeak(m, minHeight, size, mask, peaks[k].frequency, peaks[k].time);
    }
  }

  /** One cell of the peak mask is set exactly when the cell is a peak. */
  lemma MaskIsPeak(m: Matrix, minHeight: int, size: nat, mask: seq<seq<bool>>, r: nat, c: nat)
    requires size > 0 && mask == PeakMask(m, minHeight, size)
    requires r < |mask| && c < |mask[r]|
    ensures r < |m| && c < Width(m)
    ensures mask[r][c] <==> IsPeak(m, r, c, minHeight, size)
  {
  }

  /** Every pair listed by `Swapped(Where(mask))` names a set cell of the mask, row as frequency. */
  lemma SwappedCellsAreSet(mask: seq<seq<bool>>, peaks: seq<Peak>)
    requires peaks == Swapped(Where(mask))
    ensures forall k :: 0 <= k < |peaks| ==>
      peaks[k].frequency < |mask| && peaks[k].time < |mask[peaks[k].frequency]| && mask[peaks[k].frequency][peaks[k].time]
  {
    var cells := Where(mask);
    forall k | 0 <= k < |peaks|
      ensures peaks[k].frequency < |mask| && peaks[k].time < |mask[peaks[k].frequency]| && mask[peaks[k].frequency][peaks[k].time]
    {
      assert peaks[k] == Peak(cells[k].1, cells[k].0);
    }
  }

  /** Every peak of the matrix is listed by `Where` from the peak mask. */
  lemma PeaksOfMaskComplete(m: Matrix, minHeight: int, size: nat, mask: seq<seq<bool>>, peaks: seq<Peak>)
    requires size > 0 && mask == PeakMask(m, minHeight, size) && peaks == Swapped(Where(mask))
    ensures forall f, t :: 0 <= f < |m| && 0 <= t < Width(m) && IsPeak(m, f, t, minHeight, size) ==> Peak(t, f) in peaks
  {
    forall f, t | 0 <= f < |m| && 0 <= t < Width(m) && IsPeak(m, f, t, minHeight, size)
      ensures Peak(t, f) in peaks
    {
      MaskIsPeak(m, minHeight, size, mask, f, t);
    }
  }

  /** `zip(peaks[1], peaks[0])`: each (row, column) pair turned into (time, frequency). */
  function Swapped(cells: seq<(nat, nat)>): (peaks: seq<Peak>)
    ensures |peaks| == |cells|
    ensures forall k :: 0 <= k < |cells| ==> peaks[k] == Peak(cells[k].1, cells[k].0)
    ensures forall r, c :: (r, c) in cells ==> Peak(c, r) in peaks
  {
    if |cells| == 0 then [] else [Peak(cells[0].1, cells[0].0)] + Swapped(cells[1..])
  }

  /** A cell is reported exactly when it is above the floor and no cell of its neighbourhood is
      larger: equal neighbours (a plateau) are all reported. */
  lemma ReportedIffLocalMaxAboveFloor(m: Matrix, minHeight: int, size: nat, f: nat, t: nat)
    requires size > 0 && f < |m| && t < Width(m)
    ensures Peak(t, f) in Peaks(m, minHeight, size) <==> m[f][t] > minHeight && IsLocalMax(m, f, t, size)
  {
    PeakIffLocalMax(m, f, t, minHeight, size);
    var peaks := Peaks(m, minHeight, size);
    if Peak(t, f) in peaks {
      var k :| 0 <= k < |peaks| && peaks[k] == Peak(t, f);
    }
  }

  /** A strictly row-major list holding `p`, and nothing but `p`, is `[p]`. */
  lemma SortedListOfOnePeak(peaks: seq<Peak>, p: Peak)
    requires p in peaks
    requires forall k :: 0 <= k < |peaks| ==> peaks[k] == p
    requires forall k1, k2 :: 0 <= k1 < k2 < |peaks| ==> RowMajorBefore(peaks[k1], peaks[k2])
    ensures peaks == [p]
  {
    assert |peaks| >= 2 ==> RowMajorBefore(peaks[0], peaks[1]);
  }

  /** A single cell above the floor, with every other cell at or below it, is the one peak. */
  lemma IsolatedSpikeIsTheOnlyPeak(m: Matrix, minHeight: int, size: nat, f0: nat, t0: nat)
    requires size > 0 && f0 < |m| && t0 < Width(m)
    requires m[f0][t0] > minHeight
    requires forall f, t :: 0 <= f < |m| && 0 <= t < Width(m) && (f != f0 || t != t0) ==> m[f][t] <= minHeight
    ensures Peaks(m, minHeight, size) == [Peak(t0, f0)]
  {
    SpikeIsListed(m, minHeight, size, f0, t0);
    NothingButTheSpikeIsListed(m, minHeight, size, f0, t0);
    SortedListOfOnePeak(Peaks(m, minHeight, size), Peak(t0, f0));
  }

  /** The spike has no larger neighbour, so it is listed. */
  lemma SpikeIsListed(m: Matrix, minHeight: int, size: nat, f0: nat, t0: nat)
    requires size > 0 && f0 < |m| && t0 < Width(m)
    requires m[f0][t0] > minHeight
    requires forall f, t :: 0 <= f < |m| && 0 <= t < Width(m) && (f != f0 || t != t0) ==> m[f][t] <= minHeight
    ensures Peak(t0, f0) in Peaks(m, minHeight, size)
  {
    PeakIffLocalMax(m, f0, t0, minHeight, size);
  }

  /** Every listed cell is above the floor, and only the spike is. */
  lemma NothingButTheSpikeIsListed(m: Matrix, minHeight: int, size: nat, f0: nat, t0: nat)
    requires size > 0 && f0 < |m| && t0 < Width(m)
    requires forall f, t :: 0 <= f < |m| && 0 <= t < Width(m) && (f != f0 || t != t0) ==> m[f][t] <= minHeight
    ensures var peaks := Peaks(m, minHeight, size);
      forall k :: 0 <= k < |peaks| ==> peaks[k] == Peak(t0, f0)
  {
    var peaks := Peaks(m, minHeight, size);
    forall k | 0 <= k < |peaks| ensures peaks[k] == Peak(t0, f0) {
      var p := peaks[k];
      assert m[p.frequency][p.time] > minHeight;
    }
  }
}
