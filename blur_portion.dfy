/**
 * The convolver of multithreading/10-blur_portion.c: the boundary-aware
 * neighbour test, the k-by-k weighted average of one pixel, and the walk over
 * one portion of the destination image.
 *
 * Images are flat row-major buffers addressed by `row * width + col`.  The
 * accumulators that the C code keeps in `float` are modelled over `real`.
 */
module Convolver {
  import opened Arith
  import opened Wrappers
  import opened Seqs

  datatype Pixel = Pixel(r: int, g: int, b: int)

  /** The source raster: `img_t const *`, never written. */
  datatype Image = Image(w: nat, h: nat, pixels: seq<Pixel>)
  {
    predicate Valid() { |pixels| == w * h }
  }

  /** A square weight matrix of side `size`. */
  datatype Kernel = Kernel(size: nat, matrix: seq<seq<real>>)
  {
    predicate Valid() { |matrix| == size && forall i :: 0 <= i < size ==> |matrix[i]| == size }
  }

  /**
   * `blur_portion_t`: the shared source image and kernel, the destination pixel
   * buffer (`img_blur->pixels`, which has the source's dimensions) and the
   * rectangle of the destination this portion writes.
   */
  datatype Portion = Portion(img: Image, imgBlur: array<Pixel>, kernel: Kernel, x: nat, y: nat, w: nat, h: nat)
  {
    predicate Valid() { img.Valid() && kernel.Valid() && imgBlur.Length == img.w * img.h }
  }

  /** Weighted channel sums and the sum of the weights that were applied. */
  datatype Acc = Acc(r: real, g: real, b: real, sum: real)
  {
    function Plus(o: Acc): Acc { Acc(r + o.r, g + o.g, b + o.b, sum + o.sum) }
  }

  const Zero := Acc(0.0, 0.0, 0.0, 0.0)

  /** C's `(int)` conversion of a float: truncation toward zero. */
  function TruncToInt(x: real): (n: int)
    ensures x >= 0.0 ==> n as real <= x < n as real + 1.0
    ensures x < 0.0 ==> n as real - 1.0 < x <= n as real
  {
    if x >= 0.0 then x.Floor else -((-x).Floor)
  }

  /**
   * is_valid_neighbor: a candidate flat index is used for the target pixel iff it
   * lies in the image and, when the target is within `size / 2` of the left
   * (resp. right) edge, the candidate's column is far enough from the right
   * (resp. left) edge.  The left rule is tested first.
   */
  predicate IsValidNeighbor(width: nat, height: nat, size: nat, neighbor: int, target: nat)
    ensures IsValidNeighbor(width, height, size, neighbor, target) ==> 0 <= neighbor < width * height
    ensures size < 2 ==> (IsValidNeighbor(width, height, size, neighbor, target) <==> 0 <= neighbor < width * height)
  {
    if neighbor < 0 || neighbor >= width * height then false
    else
      var targetCol := target % width;
      var neighborCol := neighbor % width;
      if targetCol - size / 2 < 0 then neighborCol + size / 2 < width
      else if targetCol + size / 2 >= width then neighborCol - size / 2 >= 0
      else true
  }

  /** The flat index of candidate (i, j) of the window of `target`: the walk starts `size / 2` rows up and columns left and steps by rows. */
  function Candidate(width: nat, size: nat, target: nat, i: nat, j: nat): int
  {
    target - (size / 2) * (1 + width) + i * width + j
  }

  /** One pixel's channels scaled by a weight, and the weight itself. */
  function Weighted(px: Pixel, weight: real): Acc
  {
    Acc(px.r as real * weight, px.g as real * weight, px.b as real * weight, weight)
  }

  /** What candidate (i, j) adds to the accumulators: its weighted channels if it is valid, nothing otherwise. */
  function Term(img: Image, kernel: Kernel, target: nat, i: nat, j: nat): Acc
    requires img.Valid() && kernel.Valid() && i < kernel.size && j < kernel.size
  {
    var n := Candidate(img.w, kernel.size, target, i, j);
    if IsValidNeighbor(img.w, img.h, kernel.size, n, target) then
      Weighted(img.pixels[n], kernel.matrix[i][j])
    else Zero
  }

  /** The term of candidate (i, j), at flat index n: the weighted pixel there when it is a valid neighbour, else nothing. */
  lemma TermAt(img: Image, kernel: Kernel, target: nat, i: nat, j: nat, n: int)
    requires img.Valid() && kernel.Valid() && i < kernel.size && j < kernel.size
    requires n == Candidate(img.w, kernel.size, target, i, j)
    ensures IsValidNeighbor(img.w, img.h, kernel.size, n, target) ==>
      Term(img, kernel, target, i, j) == Weighted(img.pixels[n], kernel.matrix[i][j])
    ensures !IsValidNeighbor(img.w, img.h, kernel.size, n, target) ==> Term(img, kernel, target, i, j) == Zero
  {
  }

  /** The contribution of the first `j` candidates of window row `i`. */
  function RowAcc(img: Image, kernel: Kernel, target: nat, i: nat, j: nat): Acc
    requires img.Valid() && kernel.Valid() && i < kernel.size && j <= kernel.size
  {
    if j == 0 then Zero else RowAcc(img, kernel, target, i, j - 1).Plus(Term(img, kernel, target, i, j - 1))
  }

  /** The contribution of the first `i` rows of the window. */
  function WindowAcc(img: Image, kernel: Kernel, target: nat, i: nat): Acc
    requires img.Valid() && kernel.Valid() && i <= kernel.size
  {
    if i == 0 then Zero
    else WindowAcc(img, kernel, target, i - 1).Plus(RowAcc(img, kernel, target, i - 1, kernel.size))
  }

  /**
   * The blurred value of the target pixel: each channel's weighted sum over the
   * valid candidates divided by the sum of their weights, truncated.  None when
   * that sum is zero: the C code then divides by zero and converts the result
   * to int, which is undefined.
   */
  function BlurredPixel(img: Image, kernel: Kernel, target: nat): (r: Option<Pixel>)
    requires img.Valid() && kernel.Valid()
    ensures r.None? <==> WindowAcc(img, kernel, target, kernel.size).sum == 0.0
  {
    var a := WindowAcc(img, kernel, target, kernel.size);
    if a.sum == 0.0 then None
    else Some(Pixel(TruncToInt(a.r / a.sum), TruncToInt(a.g / a.sum), TruncToInt(a.b / a.sum)))
  }

  lemma PlusAssoc(a: Acc, b: Acc, c: Acc)
    ensures a.Plus(b).Plus(c) == a.Plus(b.Plus(c))
  {
  }

  /**
   * Candidate (i, j) of the window is meant to be the image cell
   * (targetRow - size/2 + i, targetCol - size/2 + j); its flat index is that
   * cell's row times the width plus its column, even when the column falls
   * outside [0, width).
   */
  lemma CandidateCell(width: nat, size: nat, target: nat, i: nat, j: nat)
    requires width > 0
    ensures Candidate(width, size, target, i, j)
            == (target / width - size / 2 + i) * width + (target % width - size / 2 + j)
  {
    var half, row := size / 2, target / width;
    assert target == row * width + target % width;
    assert (row - half + i) * width == row * width - half * width + i * width;
    assert half * (1 + width) == half + half * width;
  }

  /** A candidate whose intended column lies left of the image wraps onto the previous row's right end, and it is rejected. */
  lemma RejectsLeftWrap(width: nat, height: nat, size: nat, target: nat, i: nat, j: nat)
    requires target < width * height && size / 2 <= width && j < size
    requires target % width - size / 2 + j < 0
    ensures !IsValidNeighbor(width, height, size, Candidate(width, size, target, i, j), target)
  {
    var half, row, col := size / 2, target / width - size / 2 + i, target % width - size / 2 + j;
    var n := Candidate(width, size, target, i, j);
    CandidateCell(width, size, target, i, j);
    assert (row - 1) * width == row * width - width;
    if n >= 0 {
      DivModUnique(n, width, row - 1, col + width);
    }
  }

  /** A candidate whose intended column lies right of the image wraps onto the next row's left end, and it is rejected. */
  lemma RejectsRightWrap(width: nat, height: nat, size: nat, target: nat, i: nat, j: nat)
    requires target < width * height && 2 * (size / 2) <= width && j < size
    requires target % width - size / 2 + j >= width
    ensures !IsValidNeighbor(width, height, size, Candidate(width, size, target, i, j), target)
  {
    var half, row, col := size / 2, target / width - size / 2 + i, target % width - size / 2 + j;
    var n := Candidate(width, size, target, i, j);
    CandidateCell(width, size, target, i, j);
    assert (row + 1) * width == row * width + width;
    if n >= 0 {
      DivModUnique(n, width, row + 1, col - width);
    }
  }

  /**
   * No wrap-around: when the image is at least 2 * (size / 2) wide, every
   * accepted candidate is the intended window cell, inside the image.
   */
  lemma AcceptedIsWindowCell(width: nat, height: nat, size: nat, target: nat, i: nat, j: nat)
    requires target < width * height && 2 * (size / 2) <= width && i < size && j < size
    ensures IsValidNeighbor(width, height, size, Candidate(width, size, target, i, j), target) ==>
              && 0 <= target / width - size / 2 + i < height
              && 0 <= target % width - size / 2 + j < width
  {
    var row, col := target / width - size / 2 + i, target % width - size / 2 + j;
    if col < 0 {
      RejectsLeftWrap(width, height, size, target, i, j);
    } else if col >= width {
      RejectsRightWrap(width, height, size, target, i, j);
    } else {
      CandidateCell(width, size, target, i, j);
      FlatIndexInImage(row, col, width, height);
    }
  }

  /** When the image is at least 2 * (size / 2) wide, the target pixel itself (the window's centre) is accepted. */
  lemma TargetAccepted(width: nat, height: nat, size: nat, target: nat)
    requires target < width * height && 2 * (size / 2) <= width && size >= 1
    ensures Candidate(width, size, target, size / 2, size / 2) == target
    ensures IsValidNeighbor(width, height, size, target, target)
  {
    CandidateCell(width, size, target, size / 2, size / 2);
  }

  /**
   * When the image is at least 3 * (size / 2) wide, the accepted candidates are
   * exactly the window cells that lie inside the image.
   */
  lemma AcceptedIffInImage(width: nat, height: nat, size: nat, target: nat, i: nat, j: nat)
    requires target < width * height && 3 * (size / 2) <= width && i < size && j < size
    ensures IsValidNeighbor(width, height, size, Candidate(width, size, target, i, j), target) <==>
              && 0 <= target / width - size / 2 + i < height
              && 0 <= target % width - size / 2 + j < width
  {
    var row, col := target / width - size / 2 + i, target % width - size / 2 + j;
    AcceptedIsWindowCell(width, height, size, target, i, j);
    if 0 <= row < height && 0 <= col < width {
      CandidateCell(width, size, target, i, j);
      FlatIndexInImage(row, col, width, height);
      FlatIndex(row, col, width);
    }
  }

  /** Every channel of every pixel is in [0, 255]. */
  ghost predicate ChannelsInRange(img: Image)
  {
    forall n :: 0 <= n < |img.pixels| ==>
      0 <= img.pixels[n].r <= 255 && 0 <= img.pixels[n].g <= 255 && 0 <= img.pixels[n].b <= 255
  }

  ghost predicate NonNegativeWeights(kernel: Kernel)
    requires kernel.Valid()
  {
    forall i, j :: 0 <= i < kernel.size && 0 <= j < kernel.size ==> kernel.matrix[i][j] >= 0.0
  }

  /** Accumulators of channels in [0, 255] under non-negative weights: each weighted sum lies in [0, 255 * sum]. */
  ghost predicate AccInRange(a: Acc)
  {
    && 0.0 <= a.sum
    && 0.0 <= a.r <= 255.0 * a.sum
    && 0.0 <= a.g <= 255.0 * a.sum
    && 0.0 <= a.b <= 255.0 * a.sum
  }

  /** A channel in [0, 255] scaled by a non-negative weight lies in [0, 255 * weight]. */
  lemma ScaledChannel(c: int, weight: real, x: real)
    requires 0 <= c <= 255 && weight >= 0.0 && x == c as real * weight
    ensures 0.0 <= x <= 255.0 * weight
  {
    assert 255.0 * weight - x == (255.0 - c as real) * weight;
  }

  /** A pixel with channels in [0, 255] under a non-negative weight adds a term in range. */
  lemma WeightedInRange(px: Pixel, weight: real)
    requires 0 <= px.r <= 255 && 0 <= px.g <= 255 && 0 <= px.b <= 255 && weight >= 0.0
    ensures AccInRange(Weighted(px, weight))
  {
    var a := Weighted(px, weight);
    ScaledChannel(px.r, weight, a.r);
    ScaledChannel(px.g, weight, a.g);
    ScaledChannel(px.b, weight, a.b);
  }

  lemma TermInRange(img: Image, kernel: Kernel, target: nat, i: nat, j: nat)
    requires img.Valid() && kernel.Valid() && i < kernel.size && j < kernel.size
    requires ChannelsInRange(img) && NonNegativeWeights(kernel)
    ensures AccInRange(Term(img, kernel, target, i, j))
    ensures Term(img, kernel, target, i, j).sum >= 0.0
  {
    var n := Candidate(img.w, kernel.size, target, i, j);
    var t := Term(img, kernel, target, i, j);
    if IsValidNeighbor(img.w, img.h, kernel.size, n, target) {
      var px, weight := img.pixels[n], kernel.matrix[i][j];
      assert t == Weighted(px, weight);
      assert 0 <= px.r <= 255 && 0 <= px.g <= 255 && 0 <= px.b <= 255;
      assert weight >= 0.0;
      WeightedInRange(px, weight);
    } else {
      assert t == Zero;
    }
  }

  lemma {:induction false} RowAccInRange(img: Image, kernel: Kernel, target: nat, i: nat, j: nat)
    requires img.Valid() && kernel.Valid() && i < kernel.size && j <= kernel.size
    requires ChannelsInRange(img) && NonNegativeWeights(kernel)
    ensures AccInRange(RowAcc(img, kernel, target, i, j))
    decreases j
  {
    if j > 0 {
      RowAccInRange(img, kernel, target, i, j - 1);
      TermInRange(img, kernel, target, i, j - 1);
    }
  }

  lemma {:induction false} WindowAccInRange(img: Image, kernel: Kernel, target: nat, i: nat)
    requires img.Valid() && kernel.Valid() && i <= kernel.size
    requires ChannelsInRange(img) && NonNegativeWeights(kernel)
    ensures AccInRange(WindowAcc(img, kernel, target, i))
    decreases i
  {
    if i > 0 {
      WindowAccInRange(img, kernel, target, i - 1);
      RowAccInRange(img, kernel, target, i - 1, kernel.size);
    }
  }

  /** A weighted average of values in [0, 255] with non-negative weights stays in [0, 255] once truncated. */
  lemma AverageInRange(total: real, sum: real)
    requires sum > 0.0 && 0.0 <= total <= 255.0 * sum
    ensures 0 <= TruncToInt(total / sum) <= 255
  {
    var q := total / sum;
    assert q * sum == total;
  }

  /**
   * Blurring cannot leave the colour range: when every source channel is in
   * [0, 255] and no weight is negative, every defined blurred channel is in [0, 255].
   */
  lemma BlurredPixelInRange(img: Image, kernel: Kernel, target: nat)
    requires img.Valid() && kernel.Valid() && ChannelsInRange(img) && NonNegativeWeights(kernel)
    ensures BlurredPixel(img, kernel, target).Some? ==>
              var p := BlurredPixel(img, kernel, target).value;
              0 <= p.r <= 255 && 0 <= p.g <= 255 && 0 <= p.b <= 255
  {
    var a := WindowAcc(img, kernel, target, kernel.size);
    WindowAccInRange(img, kernel, target, kernel.size);
    if a.sum != 0.0 {
      AverageInRange(a.r, a.sum);
      AverageInRange(a.g, a.sum);
      AverageInRange(a.b, a.sum);
    }
  }

  /** With non-negative weights, a row's weight sum is at least the weight any one of its accepted candidates adds. */
  lemma {:induction false} RowAccSumAtLeast(img: Image, kernel: Kernel, target: nat, i: nat, j: nat, c: nat)
    requires img.Valid() && kernel.Valid() && i < kernel.size && j <= kernel.size && NonNegativeWeights(kernel)
    ensures RowAcc(img, kernel, target, i, j).sum >= 0.0
    ensures c < j ==> RowAcc(img, kernel, target, i, j).sum >= Term(img, kernel, target, i, c).sum
    decreases j
  {
    if j > 0 {
      RowAccSumAtLeast(img, kernel, target, i, j - 1, c);
      var n := Candidate(img.w, kernel.size, target, i, j - 1);
      var prev, last := RowAcc(img, kernel, target, i, j - 1), Term(img, kernel, target, i, j - 1);
      assert last.sum >= 0.0 by {
        TermAt(img, kernel, target, i, j - 1, n);
        if IsValidNeighbor(img.w, img.h, kernel.size, n, target) {
          assert kernel.matrix[i][j - 1] >= 0.0;
        }
      }
      assert RowAcc(img, kernel, target, i, j).sum == prev.sum + last.sum;
      if c == j - 1 {
        assert Term(img, kernel, target, i, c) == last;
      }
    }
  }

  /** With non-negative weights, the window's weight sum is at least the weight of any one of its rows. */
  lemma {:induction false} WindowAccSumAtLeast(img: Image, kernel: Kernel, target: nat, i: nat, row: nat)
    requires img.Valid() && kernel.Valid() && i <= kernel.size && NonNegativeWeights(kernel)
    ensures WindowAcc(img, kernel, target, i).sum >= 0.0
    ensures row < i ==> WindowAcc(img, kernel, target, i).sum >= RowAcc(img, kernel, target, row, kernel.size).sum
    decreases i
  {
    if i > 0 {
      WindowAccSumAtLeast(img, kernel, target, i - 1, row);
      RowAccSumAtLeast(img, kernel, target, i - 1, kernel.size, 0);
    }
  }

  /**
   * The blurred value is defined whenever the kernel's centre weight is positive,
   * the other weights are non-negative and the image is at least
   * 2 * (size / 2) wide: the centre always contributes.
   */
  lemma CentreWeightDefines(img: Image, kernel: Kernel, target: nat)
    requires img.Valid() && kernel.Valid() && target < img.w * img.h
    requires kernel.size >= 1 && 2 * (kernel.size / 2) <= img.w
    requires NonNegativeWeights(kernel) && kernel.matrix[kernel.size / 2][kernel.size / 2] > 0.0
    ensures BlurredPixel(img, kernel, target).Some?
  {
    var half := kernel.size / 2;
    TargetAccepted(img.w, img.h, kernel.size, target);
    assert Term(img, kernel, target, half, half).sum == kernel.matrix[half][half];
    RowAccSumAtLeast(img, kernel, target, half, kernel.size, half);
    WindowAccSumAtLeast(img, kernel, target, kernel.size, half);
  }

  lemma IntegralTrunc(n: int)
    ensures TruncToInt(n as real / 1.0) == n
  {
    assert n as real / 1.0 == n as real;
  }

  /** The 1-by-1 identity kernel reproduces the source image. */
  lemma IdentityKernel(img: Image, target: nat)
    requires img.Valid() && target < img.w * img.h
    ensures BlurredPixel(img, Kernel(1, [[1.0]]), target) == Some(img.pixels[target])
  {
    var kernel := Kernel(1, [[1.0]]);
    TargetAccepted(img.w, img.h, 1, target);
    var px := img.pixels[target];
    var a := Acc(px.r as real, px.g as real, px.b as real, 1.0);
    assert Term(img, kernel, target, 0, 0) == a;
    assert RowAcc(img, kernel, target, 0, 1) == Zero.Plus(a);
    assert WindowAcc(img, kernel, target, 1) == Zero.Plus(Zero.Plus(a));
    assert Zero.Plus(Zero.Plus(a)) == a;
    IntegralTrunc(px.r);
    IntegralTrunc(px.g);
    IntegralTrunc(px.b);
  }

  /** When every candidate of the window is rejected, nothing is accumulated. */
  lemma {:induction false} NoAcceptedCandidates(img: Image, kernel: Kernel, target: nat, i: nat)
    requires img.Valid() && kernel.Valid() && i <= kernel.size
    requires forall a, b :: 0 <= a < kernel.size && 0 <= b < kernel.size ==>
               !IsValidNeighbor(img.w, img.h, kernel.size, Candidate(img.w, kernel.size, target, a, b), target)
    ensures WindowAcc(img, kernel, target, i) == Zero
    decreases i
  {
    if i > 0 {
      NoAcceptedCandidates(img, kernel, target, i - 1);
      NoAcceptedInRow(img, kernel, target, i - 1, kernel.size);
    }
  }

  /** When every candidate of the window is rejected, a row accumulates nothing. */
  lemma {:induction false} NoAcceptedInRow(img: Image, kernel: Kernel, target: nat, a: nat, j: nat)
    requires img.Valid() && kernel.Valid() && a < kernel.size && j <= kernel.size
    requires forall a, b :: 0 <= a < kernel.size && 0 <= b < kernel.size ==>
               !IsValidNeighbor(img.w, img.h, kernel.size, Candidate(img.w, kernel.size, target, a, b), target)
    ensures RowAcc(img, kernel, target, a, j) == Zero
    decreases j
  {
    if j > 0 {
      NoAcceptedInRow(img, kernel, target, a, j - 1);
    }
  }

  /**
   * An image narrower than 2 * (size / 2) can reject its own pixel: in a 1-by-1
   * image a 3-by-3 window accepts no candidate, so the weight sum is zero and
   * the C result is undefined.
   */
  lemma OnePixelImageUndefined(img: Image, kernel: Kernel)
    requires img.Valid() && kernel.Valid() && img.w == 1 && img.h == 1 && kernel.size == 3
    ensures BlurredPixel(img, kernel, 0) == None
  {
    forall a, b | 0 <= a < 3 && 0 <= b < 3
      ensures !IsValidNeighbor(1, 1, 3, Candidate(1, 3, 0, a, b), 0)
    {
    }
    NoAcceptedCandidates(img, kernel, 0, 3);
  }

  /** True when `dst[t]` holds the blurred value of pixel t, or when that value is undefined. */
  ghost predicate Blurred(img: Image, kernel: Kernel, dst: seq<Pixel>, t: nat)
    requires img.Valid() && kernel.Valid() && t < |dst|
  {
    BlurredPixel(img, kernel, t).Some? ==> dst[t] == BlurredPixel(img, kernel, t).value
  }

  /**
   * apply_blur_to_pixel: walks the k-by-k window with a stepping flat index,
   * accumulates over the valid candidates and writes the average into
   * `img_blur->pixels[target]` only.
   */
  method ApplyBlurToPixel(portion: Portion, target: nat)
    requires portion.Valid() && target < portion.imgBlur.Length
    modifies portion.imgBlur
    ensures Blurred(portion.img, portion.kernel, portion.imgBlur[..], target)
    ensures forall u :: 0 <= u < portion.imgBlur.Length && u != target ==> portion.imgBlur[u] == old(portion.imgBlur[u])
  {
    var img, kernel := portion.img, portion.kernel;
    var size, width := kernel.size, img.w;
    var r, g, b, sum := 0.0, 0.0, 0.0, 0.0;
    var neighbor: int := target - (size / 2) * (1 + width);
    var i := 0;
    while i < size
      invariant 0 <= i <= size
      invariant neighbor == Candidate(width, size, target, i, 0)
      invariant Acc(r, g, b, sum) == WindowAcc(img, kernel, target, i)
      modifies {}
    {
      var j := 0;
      while j < size
        invariant 0 <= j <= size
        invariant Acc(r, g, b, sum) == WindowAcc(img, kernel, target, i).Plus(RowAcc(img, kernel, target, i, j))
        modifies {}
      {
        var n := neighbor + j;
        assert n == Candidate(width, size, target, i, j);
        TermAt(img, kernel, target, i, j, n);
        PlusAssoc(WindowAcc(img, kernel, target, i), RowAcc(img, kernel, target, i, j), Term(img, kernel, target, i, j));
        if IsValidNeighbor(width, img.h, size, n, target) {
          var add := Weighted(img.pixels[n], kernel.matrix[i][j]);
          r := r + add.r;
          g := g + add.g;
          b := b + add.b;
          sum := sum + add.sum;
        }
        j := j + 1;
      }
      assert (i + 1) * width == i * width + width;
      neighbor := neighbor + width;
      i := i + 1;
    }
    var blurred: Pixel;
    if sum != 0.0 {
      blurred := Pixel(TruncToInt(r / sum), TruncToInt(g / sum), TruncToInt(b / sum));
    } else {
      // The C result of a division by a zero weight sum is undefined: any pixel may be stored.
      blurred :| true;
    }
    portion.imgBlur[target] := blurred;
  }

  /** Stepping along one image row: the column grows by one until the row's last cell, and the next index starts a new row. */
  lemma RowStep(rowStart: nat, col: nat, width: nat)
    requires width > 0 && col < width - rowStart % width
    ensures (rowStart + col) / width == rowStart / width
    ensures (rowStart + col) % width == rowStart % width + col
    ensures (rowStart + (width - rowStart % width)) % width == 0
  {
    var q := rowStart / width;
    assert rowStart == q * width + rowStart % width;
    DivModUnique(rowStart + col, width, q, rowStart % width + col);
    DivModUnique(rowStart + (width - rowStart % width), width, q + 1, 0);
  }

  /** A cell reached by stepping along the row of an in-image index is in the image. */
  lemma RowStepInImage(rowStart: nat, col: nat, width: nat, height: nat)
    requires width > 0 && rowStart < width * height && col < width - rowStart % width
    ensures rowStart + col < width * height
  {
    var q := rowStart / width;
    assert rowStart == q * width + rowStart % width;
    FlatIndexInImage(q, rowStart % width, width, height);
    MulMonotone(q + 1, height, width);
    assert (q + 1) * width == q * width + width;
  }

  /** The flat indices blur_portion visits in the image row holding `rowStart`: up to `w` of them, stopping at the row's end. */
  function RowVisits(width: nat, rowStart: nat, w: nat): seq<nat>
    requires width > 0
  {
    seq(Min(w, width - rowStart % width), c => rowStart + c)
  }

  /** The indices visited from row start `rowStart` on, one image row at a time, while the row start is below `end`. */
  function VisitsFrom(width: nat, rowStart: nat, end: nat, w: nat): seq<nat>
    decreases end - rowStart
  {
    if rowStart >= end || width == 0 then []
    else RowVisits(width, rowStart, w) + VisitsFrom(width, rowStart + width, end, w)
  }

  /** From a row start below `end`, the visits are that row's, then those from the next row start. */
  lemma VisitsFromStep(width: nat, rowStart: nat, end: nat, w: nat)
    requires width > 0 && rowStart < end
    ensures var rv := RowVisits(width, rowStart, w);
      && |rv| <= |VisitsFrom(width, rowStart, end, w)|
      && VisitsFrom(width, rowStart, end, w)[..|rv|] == rv
      && VisitsFrom(width, rowStart, end, w)[|rv|..] == VisitsFrom(width, rowStart + width, end, w)
  {
  }

  /** Every flat index blur_portion visits, in visiting order. */
  function Visits(portion: Portion): seq<nat>
  {
    var width := portion.img.w;
    VisitsFrom(width, portion.y * width + portion.x, Min((portion.y + portion.h) * width, width * portion.img.h), portion.w)
  }

  /** Every index in `visited` holds its blurred value and every other index its value in `orig`. */
  ghost predicate BlurredSoFar(portion: Portion, orig: seq<Pixel>, visited: seq<nat>)
    requires portion.Valid() && |orig| == portion.imgBlur.Length
    reads portion.imgBlur
  {
    forall u :: 0 <= u < portion.imgBlur.Length ==>
      if u in visited then Blurred(portion.img, portion.kernel, portion.imgBlur[..], u)
      else portion.imgBlur[u] == orig[u]
  }

  /**
   * blur_portion: walks the rows of the portion from `y * w + x` while below
   * both the portion's end and the image's end, and in each row up to `w`
   * columns, stopping at the image row's end; each visited pixel is blurred.
   * Nothing outside the visited indices changes.
   */
  method BlurPortion(portion: Portion) returns (ghost visited: seq<nat>)
    requires portion.Valid()
    modifies portion.imgBlur
    ensures visited == Visits(portion)
    ensures forall u :: 0 <= u < portion.imgBlur.Length ==>
              if u in visited then Blurred(portion.img, portion.kernel, portion.imgBlur[..], u)
              else portion.imgBlur[u] == old(portion.imgBlur[u])
  {
    ghost var orig := portion.imgBlur[..];
    var width := portion.img.w;
    var end := Min((portion.y + portion.h) * width, width * portion.img.h);
    var row := portion.y * width + portion.x;
    assert width == 0 ==> end == 0;
    visited := [];
    while row < end
      invariant visited + VisitsFrom(width, row, end, portion.w) == Visits(portion)
      invariant BlurredSoFar(portion, orig, visited)
      decreases end - row
    {
      ghost var before := visited;
      visited := BlurRow(portion, row, orig, visited);
      VisitsFromStep(width, row, end, portion.w);
      ShiftPrefix(before, RowVisits(width, row, portion.w), VisitsFrom(width, row, end, portion.w), Visits(portion));
      row := row + width;
    }
  }

  /**
   * One pass of blur_portion's outer loop: up to `w` pixels from the row
   * start `row`, stopping at the image row's end, each blurred.  `orig`
   * is the destination before blur_portion began and `before` the indices
   * already visited.
   */
  method BlurRow(portion: Portion, row: nat, ghost orig: seq<Pixel>, ghost before: seq<nat>) returns (ghost visited: seq<nat>)
    requires portion.Valid() && portion.img.w > 0 && row < portion.img.w * portion.img.h
    requires |orig| == portion.imgBlur.Length
    requires BlurredSoFar(portion, orig, before)
    modifies portion.imgBlur
    ensures visited == before + RowVisits(portion.img.w, row, portion.w)
    ensures BlurredSoFar(portion, orig, visited)
  {
    var width := portion.img.w;
    visited := before;
    var col := 0;
    while col < portion.w
      invariant 0 <= col <= portion.w && col <= width - row % width
      invariant visited == before + seq(col, c => row + c)
      invariant BlurredSoFar(portion, orig, visited)
    {
      var i := row + col;
      if col != 0 && i % width == 0 {
        break;
      }
      if col == width - row % width {
        RowStep(row, 0, width);
      } else {
        RowStep(row, col, width);
      }
      RowStepInImage(row, col, width, portion.img.h);
      ApplyBlurToPixel(portion, i);
      visited := visited + [i];
      col := col + 1;
    }
    assert col == Min(portion.w, width - row % width) by {
      if col < portion.w && col < width - row % width {
        RowStep(row, col, width);
      }
    }
    assert seq(col, c => row + c) == RowVisits(width, row, portion.w);
  }

  /**
   * For a portion whose left edge is inside the image, the visited indices are
   * exactly the cells of the portion's rectangle clipped to the image:
   * rows [y, min(y + h, height)) and columns [x, min(x + w, width)).
   */
  lemma VisitsAreClippedRectangle(portion: Portion, u: nat)
    requires portion.x < portion.img.w
    ensures u in Visits(portion) <==>
              && portion.y <= u / portion.img.w < Min(portion.y + portion.h, portion.img.h)
              && portion.x <= u % portion.img.w < Min(portion.x + portion.w, portion.img.w)
  {
    VisitsFromRows(portion.img.w, portion.img.h, portion.x, portion.w, portion.y, portion.y + portion.h, u);
  }

  /** The cells of one visited row: the row of the start, columns from x up to min(x + w, width). */
  lemma RowVisitsCells(width: nat, x: nat, w: nat, r: nat, u: nat)
    requires x < width
    ensures u in RowVisits(width, r * width + x, w) <==>
              u / width == r && x <= u % width < Min(x + w, width)
  {
    var row := RowVisits(width, r * width + x, w);
    FlatIndex(r, x, width);
    if u in row {
      var c :| 0 <= c < |row| && row[c] == u;
      FlatIndex(r, x + c, width);
    }
    if u / width == r && x <= u % width < Min(x + w, width) {
      var c := u % width - x;
      assert u == r * width + u % width;
      assert row[c] == u;
    }
  }

  /** A row start r * width + x lies below min(lastRow * width, width * height) iff r is below both row bounds. */
  lemma RowStartBelowEnd(width: nat, height: nat, x: nat, r: nat, lastRow: nat)
    requires x < width
    ensures r * width + x < Min(lastRow * width, width * height) <==> r < lastRow && r < height
  {
    FlatIndexInImage(r, x, width, lastRow);
    FlatIndexInImage(r, x, width, height);
    assert lastRow * width == width * lastRow;
  }

  lemma {:induction false} VisitsFromRows(width: nat, height: nat, x: nat, w: nat, r: nat, lastRow: nat, u: nat)
    requires x < width
    ensures u in VisitsFrom(width, r * width + x, Min(lastRow * width, width * height), w) <==>
              r <= u / width < Min(lastRow, height) && x <= u % width < Min(x + w, width)
    decreases lastRow - r
  {
    var start, end := r * width + x, Min(lastRow * width, width * height);
    RowStartBelowEnd(width, height, x, r, lastRow);
    if start < end {
      assert start + width == (r + 1) * width + x;
      VisitsFromRows(width, height, x, w, r + 1, lastRow, u);
      RowVisitsCells(width, x, w, r, u);
      assert VisitsFrom(width, start, end, w) == RowVisits(width, start, w) + VisitsFrom(width, start + width, end, w);
    }
  }

  ghost predicate Increasing(s: seq<nat>)
  {
    forall a, b :: 0 <= a < b < |s| ==> s[a] < s[b]
  }

  /** The visited indices increase: blur_portion works in row-major order and never visits an index twice. */
  lemma {:induction false} VisitsFromIncreasing(width: nat, rowStart: nat, end: nat, w: nat)
    ensures Increasing(VisitsFrom(width, rowStart, end, w))
    ensures forall v :: v in VisitsFrom(width, rowStart, end, w) ==> v >= rowStart
    decreases end - rowStart
  {
    if rowStart < end && width > 0 {
      var row, rest := RowVisits(width, rowStart, w), VisitsFrom(width, rowStart + width, end, w);
      VisitsFromIncreasing(width, rowStart + width, end, w);
      var all := row + rest;
      assert VisitsFrom(width, rowStart, end, w) == all;
      forall a, b | 0 <= a < b < |all|
        ensures all[a] < all[b]
      {
        if b < |row| {
          assert all[a] == rowStart + a && all[b] == rowStart + b;
        } else if a < |row| {
          assert all[a] == rowStart + a < rowStart + width;
          assert all[b] == rest[b - |row|] && rest[b - |row|] in rest;
        } else {
          assert all[a] == rest[a - |row|] && all[b] == rest[b - |row|];
        }
      }
      forall v | v in all
        ensures v >= rowStart
      {
        if v !in row {
          assert v in rest;
        }
      }
    }
  }

  lemma VisitsIncreasing(portion: Portion)
    ensures Increasing(Visits(portion))
  {
    var width := portion.img.w;
    VisitsFromIncreasing(width, portion.y * width + portion.x, Min((portion.y + portion.h) * width, width * portion.img.h), portion.w);
  }
}
