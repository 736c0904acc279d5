/** The average hash of a downsized single-channel frame. */
module ImageHash {

  /** An 8-bit luma value, as the grayscale conversion produces. */
  type Luma = x: int | 0 <= x < 256

  /** A single-channel image, row by row. */
  type Grid = seq<seq<Luma>>

  /** The side of the square grid every frame is resized to before hashing. */
  const HashSide: nat := 32

  /** The pixels in row-major order (`image.flatten()`): as many as all rows hold together. */
  function Flatten(image: Grid): (pixels: seq<Luma>)
    ensures |pixels| == RowOffset(image, |image|)
  {
    if |image| == 0 then [] else image[0] + Flatten(image[1..])
  }

  function Sum(pixels: seq<int>): int
  {
    if |pixels| == 0 then 0 else pixels[0] + Sum(pixels[1..])
  }

  /** The mean intensity (`np.mean`), exact: for a 32x32 grid of bytes the float computation
      is exact too, as the sum is below 2^53 and the count a power of two. */
  function Mean(pixels: seq<int>): (mean: real)
    requires |pixels| > 0
    ensures mean * |pixels| as real == Sum(pixels) as real
  {
    Sum(pixels) as real / |pixels| as real
  }

  /** Comparing with the mean is comparing the pixel times the count with the sum. */
  lemma AboveMeanIff(p: int, total: int, n: int)
    requires n > 0
    ensures p * n > total <==> p as real > total as real / n as real
  {
    var mean := total as real / n as real;
    assert mean * n as real == total as real;
    assert (p * n) as real == p as real * n as real;
    if p as real > mean {
      assert p as real * n as real > mean * n as real;
    } else {
      assert p as real * n as real <= mean * n as real;
    }
  }

  /** The average hash: one character per pixel in row-major order, '1' when the pixel is
      strictly brighter than the mean of the image and '0' otherwise. */
  function AverageHash(image: Grid): (h: string)
    ensures |h| == |Flatten(image)|
    ensures forall i :: 0 <= i < |h| ==> h[i] == '0' || h[i] == '1'
    ensures forall i :: 0 <= i < |h| ==> (h[i] == '1' <==> Flatten(image)[i] as real > Mean(Flatten(image)))
  {
    var pixels := Flatten(image);
    var n, total := |pixels|, Sum(pixels);
    assert forall i :: 0 <= i < n ==> (pixels[i] * n > total <==> pixels[i] as real > Mean(pixels)) by {
      forall i | 0 <= i < n ensures pixels[i] * n > total <==> pixels[i] as real > Mean(pixels) {
        AboveMeanIff(pixels[i], total, n);
      }
    }
    seq(n, i requires 0 <= i < n => if pixels[i] * n > total then '1' else '0')
  }

  /** Every row of `image` has `width` pixels. */
  predicate IsRectangle(image: Grid, width: nat)
  {
    forall r :: 0 <= r < |image| ==> |image[r]| == width
  }

  lemma {:induction false} FlattenLength(image: Grid, width: nat)
    requires IsRectangle(image, width)
    ensures |Flatten(image)| == |image| * width
  {
    if |image| != 0 {
      FlattenLength(image[1..], width);
      assert |image| * width == width + (|image| - 1) * width;
    }
  }

  lemma MultiplySuccessor(a: nat, b: nat)
    ensures (a + 1) * b == a * b + b
  {
  }

  /** Where row `r` starts in the flattened image: the number of pixels of the rows before it. */
  function RowOffset(image: Grid, r: nat): nat
    requires r <= |image|
  {
    if r == 0 then 0 else |image[0]| + RowOffset(image[1..], r - 1)
  }

  lemma {:induction false} FlattenAt(image: Grid, r: nat, c: nat)
    requires r < |image| && c < |image[r]|
    ensures RowOffset(image, r) + c < |Flatten(image)|
    ensures Flatten(image)[RowOffset(image, r) + c] == image[r][c]
  {
    assert Flatten(image) == image[0] + Flatten(image[1..]);
    if r != 0 {
      assert image[1..][r - 1] == image[r];
      FlattenAt(image[1..], r - 1, c);
    }
  }

  lemma {:induction false} RowOffsetOfRectangle(image: Grid, width: nat, r: nat)
    requires IsRectangle(image, width) && r <= |image|
    ensures RowOffset(image, r) == r * width
  {
    if r != 0 {
      RowOffsetOfRectangle(image[1..], width, r - 1);
      MultiplySuccessor(r - 1, width);
    }
  }

  /** Flattening is row-major: pixel (r, c) of a rectangular image lands at r * width + c. */
  lemma FlattenRowMajor(image: Grid, width: nat, r: nat, c: nat)
    requires IsRectangle(image, width) && r < |image| && c < width
    ensures |Flatten(image)| == |image| * width
    ensures r * width + c < |Flatten(image)| && Flatten(image)[r * width + c] == image[r][c]
  {
    FlattenLength(image, width);
    RowOffsetOfRectangle(image, width, r);
    FlattenAt(image, r, c);
  }

  /** A 32x32 grid hashes to 1024 characters. */
  lemma HashLengthOfResizedFrame(image: Grid)
    requires |image| == HashSide && IsRectangle(image, HashSide)
    ensures |AverageHash(image)| == 1024
  {
    FlattenLength(image, HashSide);
  }

  lemma {:induction false} SumLowerBound(pixels: seq<int>, low: int)
    requires forall k :: 0 <= k < |pixels| ==> low <= pixels[k]
    ensures |pixels| * low <= Sum(pixels)
  {
    if |pixels| != 0 {
      SumLowerBound(pixels[1..], low);
      assert |pixels| * low == low + (|pixels| - 1) * low;
    }
  }

  lemma {:induction false} SumOfConstant(pixels: seq<int>, v: int)
    requires forall k :: 0 <= k < |pixels| ==> pixels[k] == v
    ensures Sum(pixels) == |pixels| * v
  {
    if |pixels| != 0 {
      SumOfConstant(pixels[1..], v);
      assert |pixels| * v == v + (|pixels| - 1) * v;
    }
  }

  /** The position of a darkest pixel. */
  lemma {:induction false} DarkestPixel(pixels: seq<int>) returns (k: nat)
    requires |pixels| > 0
    ensures k < |pixels| && forall j :: 0 <= j < |pixels| ==> pixels[k] <= pixels[j]
  {
    if |pixels| == 1 {
      k := 0;
    } else {
      var rest := DarkestPixel(pixels[1..]);
      k := if pixels[0] <= pixels[1 + rest] then 0 else 1 + rest;
      assert forall j :: 1 <= j < |pixels| ==> pixels[j] == pixels[1..][j - 1];
    }
  }

  lemma {:induction false} FlattenConstant(image: Grid, v: Luma)
    requires forall r, c :: 0 <= r < |image| && 0 <= c < |image[r]| ==> image[r][c] == v
    ensures forall k :: 0 <= k < |Flatten(image)| ==> Flatten(image)[k] == v
  {
    if |image| != 0 {
      FlattenConstant(image[1..], v);
      assert forall k :: 0 <= k < |image[0]| ==> image[0][k] == v;
    }
  }

  /** A uniform image has no pixel above its mean: it hashes to all '0'. */
  lemma ConstantImageHashesToZeros(image: Grid, v: Luma)
    requires forall r, c :: 0 <= r < |image| && 0 <= c < |image[r]| ==> image[r][c] == v
    ensures forall i :: 0 <= i < |AverageHash(image)| ==> AverageHash(image)[i] == '0'
  {
    var pixels := Flatten(image);
    FlattenConstant(image, v);
    SumOfConstant(pixels, v);
    forall i | 0 <= i < |pixels| ensures !(pixels[i] as real > Mean(pixels)) {
      AboveMeanIff(pixels[i], Sum(pixels), |pixels|);
    }
  }

  /** A darkest pixel is never above the mean, so a non-empty image's hash holds a '0'. */
  lemma HashHasAZero(image: Grid)
    requires |Flatten(image)| > 0
    ensures exists i :: 0 <= i < |AverageHash(image)| && AverageHash(image)[i] == '0'
  {
    var pixels := Flatten(image);
    var k := DarkestPixel(pixels);
    SumLowerBound(pixels, pixels[k]);
    AboveMeanIff(pixels[k], Sum(pixels), |pixels|);
    assert AverageHash(image)[k] == '0';
  }

  lemma {:induction false} SumShifted(pixels: seq<int>, shifted: seq<int>, d: int)
    requires |shifted| == |pixels|
    requires forall k :: 0 <= k < |pixels| ==> shifted[k] == pixels[k] + d
    ensures Sum(shifted) == Sum(pixels) + |pixels| * d
  {
    if |pixels| != 0 {
      SumShifted(pixels[1..], shifted[1..], d);
      assert |pixels| * d == d + (|pixels| - 1) * d;
    }
  }

  /** Shifting every pixel of an image by `d` shifts every flattened pixel by `d`. */
  lemma {:induction false} FlattenShifted(image: Grid, shifted: Grid, d: int)
    requires |shifted| == |image|
    requires forall r :: 0 <= r < |image| ==> |shifted[r]| == |image[r]|
    requires forall r, c :: 0 <= r < |image| && 0 <= c < |image[r]| ==> shifted[r][c] == image[r][c] + d
    ensures |Flatten(shifted)| == |Flatten(image)|
    ensures forall k :: 0 <= k < |Flatten(image)| ==> Flatten(shifted)[k] == Flatten(image)[k] + d
  {
    if |image| != 0 {
      FlattenShifted(image[1..], shifted[1..], d);
      assert forall c :: 0 <= c < |image[0]| ==> shifted[0][c] == image[0][c] + d;
    }
  }

  /** Shifting a pixel and the sum of all `n` pixels by the same amount per pixel keeps the
      pixel on the same side of the mean. */
  lemma ShiftedComparison(p: int, total: int, d: int, n: int)
    requires n > 0
    ensures (p + d) * n > total + n * d <==> p * n > total
  {
    assert (p + d) * n == p * n + n * d;
  }

  /** A uniform brightness change that keeps every pixel in range leaves the hash unchanged. */
  lemma HashIgnoresBrightnessShift(image: Grid, shifted: Grid, d: int)
    requires |shifted| == |image|
    requires forall r :: 0 <= r < |image| ==> |shifted[r]| == |image[r]|
    requires forall r, c :: 0 <= r < |image| && 0 <= c < |image[r]| ==> shifted[r][c] == image[r][c] + d
    ensures AverageHash(shifted) == AverageHash(image)
  {
    var p, q := Flatten(image), Flatten(shifted);
    FlattenShifted(image, shifted, d);
    SumShifted(p, q, d);
    var h, g := AverageHash(image), AverageHash(shifted);
    forall i | 0 <= i < |p|
      ensures g[i] == h[i]
    {
      ShiftedBit(p, q, d, i);
    }
  }

  /** Character `i` of the hash of a shifted pixel sequence is character `i` of the original's. */
  lemma ShiftedBit(p: seq<Luma>, q: seq<Luma>, d: int, i: nat)
    requires |q| == |p| && i < |p|
    requires q[i] == p[i] + d && Sum(q) == Sum(p) + |p| * d
    ensures q[i] as real > Mean(q) <==> p[i] as real > Mean(p)
  {
    AboveMeanIff(p[i], Sum(p), |p|);
    AboveMeanIff(q[i], Sum(q), |q|);
    ShiftedComparison(p[i], Sum(p), d, |p|);
  }
}
