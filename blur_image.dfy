/**
 * The partitioner and dispatcher of multithreading/11-blur_image.c: the grid
 * size, the column-major layout of portion rectangles over the destination
 * image, and the loop that blurs every portion.  The threads of the C code
 * become a sequential loop; the portions' pixel sets are pairwise disjoint,
 * so the order does not matter.
 */
module Partitioner {
  import opened Arith
  import opened Convolver
  import opened Wrappers

  /** MAX_THREADS: the thread budget the grid size is derived from. */
  const MaxThreads: nat := 16

  /** 2^64: one more than the largest size_t. */
  const SizeModulus: int := 0x1_0000_0000_0000_0000

  /** Subtraction of two size_t values, which wraps modulo 2^64. */
  function SizeSub(a: nat, b: nat): (d: nat)
    ensures d < SizeModulus
    ensures b <= a < SizeModulus ==> d == a - b
  {
    (a - b) % SizeModulus
  }

  // ---------------------------------------------------------------------
  // calculate_portion_grid_size
  // ---------------------------------------------------------------------

  function SqrtFrom(m: nat, n: nat): (r: nat)
    requires n * n <= m
    ensures n <= r && r * r <= m < (r + 1) * (r + 1)
    decreases m - n
  {
    if (n + 1) * (n + 1) > m then n
    else
      MulMonotone(1, n + 1, n + 1);
      SqrtFrom(m, n + 1)
  }

  /** The largest n with n * n <= m. */
  function FloorSqrt(m: nat): (r: nat)
    ensures r * r <= m < (r + 1) * (r + 1)
  {
    SqrtFrom(m, 0)
  }

  /** At most one n satisfies n * n <= m < (n + 1) * (n + 1). */
  lemma SqrtUnique(m: nat, a: nat, b: nat)
    requires a * a <= m < (a + 1) * (a + 1)
    requires b * b <= m < (b + 1) * (b + 1)
    ensures a == b
  {
    if a < b {
      MulMonotone(a + 1, b, a + 1);
      MulMonotone(a + 1, b, b);
    } else if b < a {
      MulMonotone(b + 1, a, b + 1);
      MulMonotone(b + 1, a, a);
    }
  }

  /** The thread budget of 16 gives a 4-by-4 grid; a budget of 0 gives 0. */
  lemma GridSizeValues()
    ensures FloorSqrt(MaxThreads) == 4
    ensures FloorSqrt(0) == 0
  {
    SqrtUnique(16, FloorSqrt(16), 4);
    SqrtUnique(0, FloorSqrt(0), 0);
  }

  /** calculate_portion_grid_size: counts n up while n * n <= maxThreads and returns n - 1. */
  method CalculatePortionGridSize(maxThreads: nat) returns (g: nat)
    ensures g * g <= maxThreads < (g + 1) * (g + 1)
    ensures g == FloorSqrt(maxThreads)
  {
    var n := 1;
    while n * n <= maxThreads
      invariant n >= 1 && (n - 1) * (n - 1) <= maxThreads
      decreases maxThreads + 1 - n
    {
      MulMonotone(1, n, n);
      n := n + 1;
    }
    g := n - 1;
    SqrtUnique(maxThreads, g, FloorSqrt(maxThreads));
  }

  // ---------------------------------------------------------------------
  // One axis of the layout
  // ---------------------------------------------------------------------

  /** An interval [start, start + len) of columns or rows. */
  datatype Span = Span(start: nat, len: nat)

  predicate InSpan(s: Span, v: int)
  {
    s.start <= v < s.start + s.len
  }

  /** The loop state of one axis: a step of at least 1, and a start whose step still fits when it is below the end. */
  predicate SpansArgs(n: nat, w: nat, x: nat)
  {
    w >= 1 && x <= n < SizeModulus && (x < n ==> x + w <= n)
  }

  /**
   * The intervals one loop of divide_image_into_portions walks along an axis of
   * length n, from x with current step w: the remainder n - (x + w) is computed
   * in size_t, and the step is widened by it when it is non-zero and below the
   * step; the widened step is kept for the next interval.
   */
  function Spans(n: nat, w: nat, x: nat): (r: seq<Span>)
    requires SpansArgs(n, w, x)
    ensures r == [] <==> x >= n
    decreases n - x
  {
    if x >= n then []
    else
      var remainder := SizeSub(n, x + w);
      var w' := if remainder != 0 && remainder < w then w + remainder else w;
      [Span(x, w')] + Spans(n, w', x + w')
  }

  /** One step of an axis loop: the interval at x with the (possibly widened) step w', and the loop state after it. */
  lemma StepSpans(n: nat, w: nat, x: nat, w': nat)
    requires SpansArgs(n, w, x) && x < n
    requires w' == if SizeSub(n, x + w) != 0 && SizeSub(n, x + w) < w then w + SizeSub(n, x + w) else w
    ensures SpansArgs(n, w', x + w')
    ensures Spans(n, w, x) == [Span(x, w')] + Spans(n, w', x + w')
  {
  }

  /** One step of the loop takes the next interval off those still to walk. */
  lemma ColumnsStep(n: nat, w: nat, x: nat, w': nat, done: seq<Span>, all: seq<Span>)
    requires SpansArgs(n, w, x) && x < n && done + Spans(n, w, x) == all
    requires w' == if SizeSub(n, x + w) != 0 && SizeSub(n, x + w) < w then w + SizeSub(n, x + w) else w
    ensures SpansArgs(n, w', x + w') && (done + [Span(x, w')]) + Spans(n, w', x + w') == all
    ensures |done| + 1 <= |all|
  {
    StepSpans(n, w, x, w');
    assert (done + [Span(x, w')]) + Spans(n, w', x + w') == done + ([Span(x, w')] + Spans(n, w', x + w'));
  }

  /** The intervals are consecutive, non-empty, start at lo and end exactly at hi. */
  ghost predicate Tiles(s: seq<Span>, lo: nat, hi: nat)
    decreases |s|
  {
    if |s| == 0 then lo == hi
    else s[0].start == lo && s[0].len >= 1 && Tiles(s[1..], lo + s[0].len, hi)
  }

  lemma {:induction false} SpansTile(n: nat, w: nat, x: nat)
    requires SpansArgs(n, w, x)
    ensures Tiles(Spans(n, w, x), x, n)
    decreases n - x
  {
    if x < n {
      var s := Spans(n, w, x);
      SpansTile(n, s[0].len, x + s[0].len);
      assert s[1..] == Spans(n, s[0].len, x + s[0].len);
    }
  }

  /** The first interval from x: the step, widened to reach n when the remainder is non-zero and below the step. */
  lemma FirstSpan(n: nat, w: nat, x: nat)
    requires SpansArgs(n, w, x) && x < n
    ensures var s := Spans(n, w, x);
      && s[0].start == x
      && (if 0 < n - (x + w) < w then s[0].len == n - x else s[0].len == w)
      && s[1..] == Spans(n, s[0].len, x + s[0].len)
      && (x + s[0].len < n ==> s[0].len == w && x + 2 * w <= n)
  {
  }

  /** An axis from x with step w has (n - x) / w intervals. */
  lemma {:induction false} SpanCount(n: nat, w: nat, x: nat)
    requires SpansArgs(n, w, x)
    ensures |Spans(n, w, x)| == (n - x) / w
    decreases n - x
  {
    if x >= n {
      DivModUnique(0, w, 0, 0);
    } else {
      FirstSpan(n, w, x);
      var remainder := n - (x + w);
      if remainder == 0 {
        DivModUnique(n - x, w, 1, 0);
      } else if remainder < w {
        DivModUnique(n - x, w, 1, remainder);
      } else {
        SpanCount(n, w, x + w);
        DivStep(n - x, w);
      }
    }
  }

  /** Every interval but the last has the step w and starts at x + k * w; so does the last one start. */
  lemma {:induction false} SpanStarts(n: nat, w: nat, x: nat)
    requires SpansArgs(n, w, x)
    ensures var s := Spans(n, w, x);
      && (forall k :: 0 <= k < |s| - 1 ==> s[k] == Span(x + k * w, w))
      && (|s| > 0 ==> s[|s| - 1].start == x + (|s| - 1) * w)
    decreases n - x
  {
    var s := Spans(n, w, x);
    if x < n {
      FirstSpan(n, w, x);
      if x + s[0].len < n {
        var rest := Spans(n, w, x + w);
        SpanStarts(n, w, x + w);
        forall k | 0 < k < |s|
          ensures s[k].start == x + k * w && (k < |s| - 1 ==> s[k].len == w)
        {
          assert s[k] == rest[k - 1];
          assert x + w + (k - 1) * w == x + k * w;
        }
      }
    }
  }

  /** The last interval is between w and 2 * w - 1 long and ends exactly at n. */
  lemma {:induction false} SpanLast(n: nat, w: nat, x: nat)
    requires SpansArgs(n, w, x) && x < n
    ensures var s := Spans(n, w, x);
      |s| > 0 && w <= s[|s| - 1].len < 2 * w && s[|s| - 1].start + s[|s| - 1].len == n
    decreases n - x
  {
    var s := Spans(n, w, x);
    FirstSpan(n, w, x);
    if x + s[0].len < n {
      SpanLast(n, w, x + w);
      assert s[|s| - 1] == s[1..][|s| - 2];
    }
  }

  /**
   * The shape of one axis: (n - x) / w intervals; every one but the last has
   * the step w and starts at x + k * w; the last is between w and 2 * w - 1
   * long and ends at n.
   */
  lemma SpanShape(n: nat, w: nat, x: nat)
    requires SpansArgs(n, w, x)
    ensures var s := Spans(n, w, x);
      && |s| == (n - x) / w
      && (forall k :: 0 <= k < |s| - 1 ==> s[k] == Span(x + k * w, w))
      && (|s| > 0 ==>
            && s[|s| - 1].start == x + (|s| - 1) * w
            && w <= s[|s| - 1].len < 2 * w
            && s[|s| - 1].start + s[|s| - 1].len == n)
  {
    SpanCount(n, w, x);
    SpanStarts(n, w, x);
    if x < n {
      SpanLast(n, w, x);
    }
  }

  lemma DivAtMost(n: nat, g: nat)
    requires g >= 1
    ensures n / g <= n
  {
    if n / g > n {
      MulMonotone(n + 1, n / g, g);
      MulAtLeast(n + 1, g);
    }
  }

  /** The intervals of one axis of length n, for a grid of g: steps of max(n / g, 1) from 0. */
  function Axis(n: nat, g: nat): seq<Span>
    requires n < SizeModulus && g >= 1
  {
    DivAtMost(n, g);
    Spans(n, Max(n / g, 1), 0)
  }

  /** An axis tiles [0, n), and has n / max(n / g, 1) intervals. */
  lemma AxisShape(n: nat, g: nat)
    requires n < SizeModulus && g >= 1
    ensures Tiles(Axis(n, g), 0, n)
    ensures |Axis(n, g)| == n / Max(n / g, 1)
  {
    DivAtMost(n, g);
    SpansTile(n, Max(n / g, 1), 0);
    SpanShape(n, Max(n / g, 1), 0);
  }

  /**
   * An axis at least g * g long has exactly g intervals, and the last one is
   * n / g + n % g long.
   */
  lemma WideAxis(n: nat, g: nat)
    requires n < SizeModulus && g >= 1 && n >= g * g
    ensures |Axis(n, g)| == g
    ensures Axis(n, g)[g - 1].len == n / g + n % g
  {
    WideQuotient(n, g);
    DivAtMost(n, g);
    SpanShape(n, n / g, 0);
  }

  // ---------------------------------------------------------------------
  // The layout
  // ---------------------------------------------------------------------

  /** The portion of the cell in column interval col and row interval row. */
  function Cell(img: Image, imgBlur: array<Pixel>, kernel: Kernel, col: Span, row: Span): Portion
  {
    Portion(img, imgBlur, kernel, col.start, row.start, col.len, row.len)
  }

  /** The portions of one column, top to bottom. */
  function Column(img: Image, imgBlur: array<Pixel>, kernel: Kernel, col: Span, rows: seq<Span>): seq<Portion>
  {
    seq(|rows|, k requires 0 <= k < |rows| => Cell(img, imgBlur, kernel, col, rows[k]))
  }

  /** The portion array divide_image_into_portions fills: column by column (x outer), each column top to bottom (y inner). */
  function Layout(img: Image, imgBlur: array<Pixel>, kernel: Kernel, cols: seq<Span>, rows: seq<Span>): seq<Portion>
    decreases |cols|
  {
    if |cols| == 0 then []
    else Column(img, imgBlur, kernel, cols[0], rows) + Layout(img, imgBlur, kernel, cols[1..], rows)
  }

  lemma {:induction false} LayoutAppend(img: Image, imgBlur: array<Pixel>, kernel: Kernel, cols: seq<Span>, col: Span, rows: seq<Span>)
    ensures Layout(img, imgBlur, kernel, cols + [col], rows)
            == Layout(img, imgBlur, kernel, cols, rows) + Column(img, imgBlur, kernel, col, rows)
    decreases |cols|
  {
    if |cols| == 0 {
      assert Layout(img, imgBlur, kernel, [col], rows) == Column(img, imgBlur, kernel, col, rows) + Layout(img, imgBlur, kernel, [], rows);
    } else {
      assert (cols + [col])[1..] == cols[1..] + [col];
      LayoutAppend(img, imgBlur, kernel, cols[1..], col, rows);
    }
  }

  /** Column-major order: the portion of column c and row r sits at index c * |rows| + r, and there are |cols| * |rows| of them. */
  lemma {:induction false} LayoutIndex(img: Image, imgBlur: array<Pixel>, kernel: Kernel, cols: seq<Span>, rows: seq<Span>, c: nat, r: nat)
    requires c < |cols| && r < |rows|
    ensures |Layout(img, imgBlur, kernel, cols, rows)| == |cols| * |rows|
    ensures c * |rows| + r < |Layout(img, imgBlur, kernel, cols, rows)|
    ensures Layout(img, imgBlur, kernel, cols, rows)[c * |rows| + r] == Cell(img, imgBlur, kernel, cols[c], rows[r])
    decreases |cols|
  {
    var L, R := Layout(img, imgBlur, kernel, cols, rows), |rows|;
    LayoutLength(img, imgBlur, kernel, cols, rows);
    SlotInRange(c, r, |cols|, R);
    var head := Column(img, imgBlur, kernel, cols[0], rows);
    assert L == head + Layout(img, imgBlur, kernel, cols[1..], rows);
    if c == 0 {
      assert c * R + r == r;
      assert L[r] == head[r] == Cell(img, imgBlur, kernel, cols[0], rows[r]);
      assert L[c * R + r] == Cell(img, imgBlur, kernel, cols[c], rows[r]);
    } else {
      LayoutIndex(img, imgBlur, kernel, cols[1..], rows, c - 1, r);
      LayoutLength(img, imgBlur, kernel, cols[1..], rows);
      var idx := (c - 1) * R + r;
      assert c * R + r == R + idx;
      assert cols[1..][c - 1] == cols[c];
      SlotInRange(c - 1, r, |cols| - 1, R);
      assert L[R + idx] == Layout(img, imgBlur, kernel, cols[1..], rows)[idx];
      assert L[c * R + r] == Cell(img, imgBlur, kernel, cols[c], rows[r]);
    }
  }

  /** Every portion of the layout shares the source image, the destination buffer and the kernel. */
  lemma {:induction false} LayoutShares(img: Image, imgBlur: array<Pixel>, kernel: Kernel, cols: seq<Span>, rows: seq<Span>)
    ensures forall p :: p in Layout(img, imgBlur, kernel, cols, rows) ==>
              p.img == img && p.imgBlur == imgBlur && p.kernel == kernel
    decreases |cols|
  {
    if |cols| > 0 {
      LayoutShares(img, imgBlur, kernel, cols[1..], rows);
    }
  }

  lemma {:induction false} LayoutLength(img: Image, imgBlur: array<Pixel>, kernel: Kernel, cols: seq<Span>, rows: seq<Span>)
    ensures |Layout(img, imgBlur, kernel, cols, rows)| == |cols| * |rows|
    decreases |cols|
  {
    if |cols| > 0 {
      LayoutLength(img, imgBlur, kernel, cols[1..], rows);
      assert |cols| * |rows| == |rows| + (|cols| - 1) * |rows|;
    }
  }

  /** The grid size divide_image_into_portions uses. */
  function GridSize(): (g: nat)
    ensures g == 4
  {
    GridSizeValues();
    FloorSqrt(MaxThreads)
  }

  /** The column and row intervals of an image of width W and height H. */
  function Columns(img: Image): seq<Span>
    requires img.w < SizeModulus
  {
    Axis(img.w, GridSize())
  }

  function Rows(img: Image): seq<Span>
    requires img.h < SizeModulus
  {
    Axis(img.h, GridSize())
  }

  /** The number of portions the loops of divide_image_into_portions fill: columns times rows. */
  function FillCount(w: nat, h: nat): nat
    requires w < SizeModulus && h < SizeModulus
  {
    |Axis(w, GridSize())| * |Axis(h, GridSize())|
  }

  /** An axis of length n has n / max(n / 4, 1) intervals (none when n is 0). */
  lemma FillCountFormula(w: nat, h: nat)
    requires w < SizeModulus && h < SizeModulus
    ensures FillCount(w, h) == (if w == 0 then 0 else w / Max(w / 4, 1)) * (if h == 0 then 0 else h / Max(h / 4, 1))
  {
    AxisShape(w, GridSize());
    AxisShape(h, GridSize());
    DivModUnique(0, 1, 0, 0);
  }

  /**
   * The portion rectangles tile the image: every pixel lies in some portion,
   * and the visited pixel sets of two different portions are disjoint.
   */
  lemma {:induction false} TileOf(s: seq<Span>, lo: nat, hi: nat, v: int) returns (k: nat)
    requires Tiles(s, lo, hi) && lo <= v < hi
    ensures k < |s| && InSpan(s[k], v)
    ensures forall k' :: 0 <= k' < |s| && InSpan(s[k'], v) ==> k' == k
    decreases |s|
  {
    if v < lo + s[0].len {
      k := 0;
      TilesAbove(s[1..], lo + s[0].len, hi);
      forall k' | 0 < k' < |s|
        ensures !InSpan(s[k'], v)
      {
        assert s[k'] == s[1..][k' - 1];
      }
    } else {
      var k0 := TileOf(s[1..], lo + s[0].len, hi, v);
      k := k0 + 1;
      forall k' | 0 < k' < |s| && InSpan(s[k'], v)
        ensures k' == k
      {
        assert s[k'] == s[1..][k' - 1];
      }
    }
  }

  /** Every interval of a tiling of [lo, hi) lies inside it. */
  lemma {:induction false} TilesAbove(s: seq<Span>, lo: nat, hi: nat)
    requires Tiles(s, lo, hi)
    ensures lo <= hi
    ensures forall k :: 0 <= k < |s| ==> lo <= s[k].start && 1 <= s[k].len && s[k].start + s[k].len <= hi
    decreases |s|
  {
    if |s| > 0 {
      TilesAbove(s[1..], lo + s[0].len, hi);
      forall k | 0 < k < |s|
        ensures lo <= s[k].start && 1 <= s[k].len && s[k].start + s[k].len <= hi
      {
        assert s[k] == s[1..][k - 1];
      }
    }
  }

  /** A pixel lies in the portion of column c and row r iff its column is in the column interval and its row in the row interval. */
  lemma InCell(img: Image, imgBlur: array<Pixel>, kernel: Kernel, cols: seq<Span>, rows: seq<Span>, c: nat, r: nat, u: nat)
    requires img.w > 0 && Tiles(cols, 0, img.w) && Tiles(rows, 0, img.h) && c < |cols| && r < |rows|
    ensures u in Visits(Cell(img, imgBlur, kernel, cols[c], rows[r])) <==>
              InSpan(cols[c], u % img.w) && InSpan(rows[r], u / img.w)
  {
    TilesAbove(cols, 0, img.w);
    TilesAbove(rows, 0, img.h);
    VisitsAreClippedRectangle(Cell(img, imgBlur, kernel, cols[c], rows[r]), u);
  }

  /** The pixels blurred by the portions of a sequence, together. */
  ghost function Covered(ps: seq<Portion>): set<nat>
    decreases |ps|
  {
    if |ps| == 0 then {} else
      var vs := Visits(ps[|ps| - 1]);
      Covered(ps[..|ps| - 1]) + set v | v in vs
  }

  lemma {:induction false} InCovered(ps: seq<Portion>, k: nat, u: nat)
    requires k < |ps| && u in Visits(ps[k])
    ensures u in Covered(ps)
    decreases |ps|
  {
    if k < |ps| - 1 {
      assert ps[..|ps| - 1][k] == ps[k];
      InCovered(ps[..|ps| - 1], k, u);
    }
  }

  /** Every pixel of the image is blurred by some portion of the layout. */
  lemma LayoutCovers(img: Image, imgBlur: array<Pixel>, kernel: Kernel, u: nat)
    requires img.w < SizeModulus && img.h < SizeModulus && u < img.w * img.h
    ensures u in Covered(Layout(img, imgBlur, kernel, Columns(img), Rows(img)))
  {
    var cols, rows := Columns(img), Rows(img);
    AxisShape(img.w, GridSize());
    AxisShape(img.h, GridSize());
    var width := img.w;
    PixelRowCol(u, width, img.h);
    var c := TileOf(cols, 0, width, u % width);
    var r := TileOf(rows, 0, img.h, u / width);
    CellCovered(img, imgBlur, kernel, cols, rows, c, r, u);
  }

  /** A pixel in the column interval c and the row interval r is blurred by the layout's portion of that cell. */
  lemma CellCovered(img: Image, imgBlur: array<Pixel>, kernel: Kernel, cols: seq<Span>, rows: seq<Span>, c: nat, r: nat, u: nat)
    requires img.w > 0 && Tiles(cols, 0, img.w) && Tiles(rows, 0, img.h) && c < |cols| && r < |rows|
    requires InSpan(cols[c], u % img.w) && InSpan(rows[r], u / img.w)
    ensures u in Covered(Layout(img, imgBlur, kernel, cols, rows))
  {
    LayoutIndex(img, imgBlur, kernel, cols, rows, c, r);
    InCell(img, imgBlur, kernel, cols, rows, c, r, u);
    InCovered(Layout(img, imgBlur, kernel, cols, rows), c * |rows| + r, u);
  }

  lemma LayoutCoversAll(img: Image, imgBlur: array<Pixel>, kernel: Kernel)
    requires img.w < SizeModulus && img.h < SizeModulus
    ensures forall u: nat :: u < img.w * img.h ==> u in Covered(Layout(img, imgBlur, kernel, Columns(img), Rows(img)))
  {
    forall u: nat | u < img.w * img.h
      ensures u in Covered(Layout(img, imgBlur, kernel, Columns(img), Rows(img)))
    {
      LayoutCovers(img, imgBlur, kernel, u);
    }
  }

  /** Every index of the layout is the slot c * |rows| + r of a column c and a row r. */
  lemma LayoutSlot(img: Image, imgBlur: array<Pixel>, kernel: Kernel, cols: seq<Span>, rows: seq<Span>, k: nat)
    returns (c: nat, r: nat)
    requires k < |Layout(img, imgBlur, kernel, cols, rows)|
    ensures c < |cols| && r < |rows| && k == c * |rows| + r
    ensures Layout(img, imgBlur, kernel, cols, rows)[k] == Cell(img, imgBlur, kernel, cols[c], rows[r])
  {
    LayoutLength(img, imgBlur, kernel, cols, rows);
    SlotOf(k, |rows|, |cols|);
    c, r := k / |rows|, k % |rows|;
    LayoutIndex(img, imgBlur, kernel, cols, rows, c, r);
  }

  /** Two different portions of the layout never blur the same pixel, so the threads write disjoint parts of the destination. */
  lemma LayoutDisjoint(img: Image, imgBlur: array<Pixel>, kernel: Kernel, k1: nat, k2: nat, u: nat)
    requires img.w < SizeModulus && img.h < SizeModulus
    requires k1 < k2 < |Layout(img, imgBlur, kernel, Columns(img), Rows(img))|
    ensures !(u in Visits(Layout(img, imgBlur, kernel, Columns(img), Rows(img))[k1])
              && u in Visits(Layout(img, imgBlur, kernel, Columns(img), Rows(img))[k2]))
  {
    var cols, rows := Columns(img), Rows(img);
    var L := Layout(img, imgBlur, kernel, cols, rows);
    AxisShape(img.w, GridSize());
    AxisShape(img.h, GridSize());
    TilesAbove(cols, 0, img.w);
    TilesAbove(rows, 0, img.h);
    var c1, r1 := LayoutSlot(img, imgBlur, kernel, cols, rows, k1);
    var c2, r2 := LayoutSlot(img, imgBlur, kernel, cols, rows, k2);
    InCell(img, imgBlur, kernel, cols, rows, c1, r1, u);
    InCell(img, imgBlur, kernel, cols, rows, c2, r2, u);
    if u in Visits(L[k1]) && u in Visits(L[k2]) {
      var c := TileOf(cols, 0, img.w, u % img.w);
      var r := TileOf(rows, 0, img.h, u / img.w);
    }
  }

  // ---------------------------------------------------------------------
  // divide_image_into_portions, initialize_portion, blur_image
  // ---------------------------------------------------------------------

  /**
   * What divide_image_into_portions returns, and how many entries it
   * allocates, as written: g * g, whatever the image; 0 when the allocation
   * fails.
   */
  function AsWrittenPortionCount(mallocSucceeds: bool): (n: nat)
    ensures n == if mallocSucceeds then 16 else 0
  {
    if mallocSucceeds then GridSize() * GridSize() else 0
  }

  /**
   * The as-written allocation does not match the number of entries the loops
   * fill: a 10-by-16 image fills 20 entries of 16 (a write past the array), a
   * 7-by-7 image 49, and a 2-by-2 image only 4, so 12 uninitialised entries are
   * handed to threads.
   */
  lemma AsWrittenCountMismatch()
    ensures FillCount(10, 16) == 20 > AsWrittenPortionCount(true)
    ensures FillCount(7, 7) == 49 > AsWrittenPortionCount(true)
    ensures FillCount(2, 2) == 4 < AsWrittenPortionCount(true)
  {
    FillCountFormula(10, 16);
    FillCountFormula(7, 7);
    FillCountFormula(2, 2);
  }

  /** An image at least g * g = 16 wide and high fills exactly the g * g entries allocated, and its last column and row absorb the remainders. */
  lemma WideImageFillsGrid(img: Image)
    requires 16 <= img.w < SizeModulus && 16 <= img.h < SizeModulus
    ensures FillCount(img.w, img.h) == AsWrittenPortionCount(true)
    ensures |Columns(img)| == 4 && Columns(img)[3].len == img.w / 4 + img.w % 4
    ensures |Rows(img)| == 4 && Rows(img)[3].len == img.h / 4 + img.h % 4
  {
    WideAxis(img.w, 4);
    WideAxis(img.h, 4);
  }

  /**
   * initialize_portion: stores the seven fields into the pointed-to entry; a
   * null pointer (no array) leaves everything as it was.
   */
  method InitializePortion(portions: array?<Portion>, k: nat, imgBlur: array<Pixel>, img: Image, kernel: Kernel,
                           x: nat, y: nat, w: nat, h: nat)
    requires portions != null ==> k < portions.Length
    modifies portions
    ensures portions != null ==> portions[..] == old(portions[..])[k := Portion(img, imgBlur, kernel, x, y, w, h)]
  {
    if portions != null {
      portions[k] := Portion(img, imgBlur, kernel, x, y, w, h);
    }
  }

  /** Before one more column is filled there is room for its |rows| portions, and after it i is again the number of columns done times |rows|. */
  lemma ColumnFits(i: nat, done: nat, cols: nat, rows: nat, len: nat)
    requires done + 1 <= cols && len == cols * rows && done * rows == i
    ensures i + rows <= len && (done + 1) * rows == i + rows
  {
    MulMonotone(done + 1, cols, rows);
  }

  lemma SlotInRange(a: nat, b: nat, na: nat, nb: nat)
    requires a < na && b < nb
    ensures a * nb + b < na * nb
  {
    MulMonotone(a + 1, na, nb);
    assert (a + 1) * nb == a * nb + nb;
  }

  /**
   * The inner loop of divide_image_into_portions, for the column [x, x + w):
   * rows of height h from y = 0, the step widened by a non-zero remainder
   * below it, one portion stored per row at entries i, i + 1, ...
   */
  method FillColumn(portions: array<Portion>, i: nat, imgBlur: array<Pixel>, img: Image, kernel: Kernel,
                    x: nat, w: nat, h0: nat, ghost rows: seq<Span>)
    returns (next: nat)
    requires SpansArgs(img.h, h0, 0) && rows == Spans(img.h, h0, 0)
    requires i + |rows| <= portions.Length
    modifies portions
    ensures next == i + |rows|
    ensures portions[..next] == old(portions[..i]) + Column(img, imgBlur, kernel, Span(x, w), rows)
  {
    ghost var done := portions[..i];
    ghost var col := Span(x, w);
    var h: nat, y: nat := h0, 0;
    next := i;
    ghost var rowsDone: seq<Span> := [];
    while y < img.h
      invariant SpansArgs(img.h, h, y)
      invariant rowsDone + Spans(img.h, h, y) == rows
      invariant next == i + |rowsDone|
      invariant portions[..next] == done + Column(img, imgBlur, kernel, col, rowsDone)
      decreases img.h - y
    {
      var remainder := SizeSub(img.h, y + h);
      ghost var step := h;
      if remainder != 0 && remainder < h {
        h := h + remainder;
      }
      StepSpans(img.h, step, y, h);
      assert (rowsDone + [Span(y, h)]) + Spans(img.h, h, y + h) == rows;
      InitializePortion(portions, next, imgBlur, img, kernel, x, y, w, h);
      assert Column(img, imgBlur, kernel, col, rowsDone + [Span(y, h)])
             == Column(img, imgBlur, kernel, col, rowsDone) + [Cell(img, imgBlur, kernel, col, Span(y, h))];
      rowsDone := rowsDone + [Span(y, h)];
      next := next + 1;
      y := y + h;
    }
    assert rowsDone == rows;
  }

  /**
   * The outer loop of divide_image_into_portions: columns of width w0 from
   * x = 0, the step widened by a non-zero remainder below it, each column
   * filled top to bottom with rows of height h0 from y = 0.
   */
  method FillColumns(portions: array<Portion>, imgBlur: array<Pixel>, img: Image, kernel: Kernel,
                     w0: nat, h0: nat, ghost cols: seq<Span>, ghost rows: seq<Span>)
    requires SpansArgs(img.w, w0, 0) && cols == Spans(img.w, w0, 0)
    requires SpansArgs(img.h, h0, 0) && rows == Spans(img.h, h0, 0)
    requires portions.Length == |cols| * |rows|
    modifies portions
    ensures portions[..] == Layout(img, imgBlur, kernel, cols, rows)
  {
    var w := w0;
    var i: nat, x: nat := 0, 0;
    ghost var colsDone: seq<Span> := [];
    while x < img.w
      invariant SpansArgs(img.w, w, x)
      invariant colsDone + Spans(img.w, w, x) == cols
      invariant |colsDone| * |rows| == i <= portions.Length
      invariant portions[..i] == Layout(img, imgBlur, kernel, colsDone, rows)
      decreases img.w - x
    {
      var remainder := SizeSub(img.w, x + w);
      ghost var step := w;
      if remainder != 0 && remainder < w {
        w := w + remainder;
      }
      ColumnsStep(img.w, step, x, w, colsDone, cols);
      ColumnFits(i, |colsDone|, |cols|, |rows|, portions.Length);
      i := FillColumn(portions, i, imgBlur, img, kernel, x, w, h0, rows);
      LayoutAppend(img, imgBlur, kernel, colsDone, Span(x, w), rows);
      colsDone := colsDone + [Span(x, w)];
      x := x + w;
    }
    assert colsDone == cols;
    assert portions[..] == portions[..i];
  }

  /**
   * divide_image_into_portions with its allocation corrected: the array has
   * one entry per portion the loops fill, and that number is returned.  The
   * loops are those of the C code: columns of width max(W / g, 1) from x = 0,
   * the step widened by a non-zero remainder below it; in each column, rows
   * of height max(H / g, 1) from y = 0 (the step reset per column), widened
   * the same way.  When the allocation fails nothing is filled and 0 is
   * returned.
   */
  method DivideImageIntoPortions(imgBlur: array<Pixel>, img: Image, kernel: Kernel, mallocSucceeds: bool)
    returns (portions: array<Portion>, count: nat)
    requires img.w < SizeModulus && img.h < SizeModulus
    ensures fresh(portions)
    ensures !mallocSucceeds ==> count == portions.Length == 0
    ensures mallocSucceeds ==> count == portions.Length == FillCount(img.w, img.h)
    ensures mallocSucceeds ==> portions[..] == Layout(img, imgBlur, kernel, Columns(img), Rows(img))
  {
    var g := CalculatePortionGridSize(MaxThreads);
    ghost var cols, rows := Columns(img), Rows(img);
    FillCountFormula(img.w, img.h);
    var numPortions := (if img.w == 0 then 0 else img.w / Max(img.w / g, 1))
                       * (if img.h == 0 then 0 else img.h / Max(img.h / g, 1));
    var placeholder := Portion(img, imgBlur, kernel, 0, 0, 0, 0);
    if !mallocSucceeds {
      portions := new Portion[0](_ => placeholder);
      count := 0;
      return;
    }
    portions := new Portion[numPortions](_ => placeholder);
    DivAtMost(img.w, g);
    DivAtMost(img.h, g);
    FillColumns(portions, imgBlur, img, kernel, Max(img.w / g, 1), Max(img.h / g, 1), cols, rows);
    count := numPortions;
  }

  /**
   * blur_image: partitions the image and blurs every portion once.  The
   * threads become a sequential loop; since the portions tile the image and
   * blur disjoint pixel sets (LayoutDisjoint), every pixel of the destination
   * ends up blurred whatever the order.
   */
  method BlurImage(imgBlur: array<Pixel>, img: Image, kernel: Kernel, mallocSucceeds: bool)
    requires img.Valid() && kernel.Valid() && imgBlur.Length == img.w * img.h
    requires img.w < SizeModulus && img.h < SizeModulus
    modifies imgBlur
    ensures mallocSucceeds ==> forall u :: 0 <= u < imgBlur.Length ==> Blurred(img, kernel, imgBlur[..], u)
    ensures !mallocSucceeds ==> imgBlur[..] == old(imgBlur[..])
  {
    var portions, count := DivideImageIntoPortions(imgBlur, img, kernel, mallocSucceeds);
    ghost var layout := portions[..];
    LayoutShares(img, imgBlur, kernel, Columns(img), Rows(img));
    ghost var covered: set<nat> := {};
    var i := 0;
    while i < count
      invariant 0 <= i <= count == portions.Length
      invariant portions[..] == layout
      invariant covered == Covered(layout[..i])
      invariant forall u :: 0 <= u < imgBlur.Length ==>
                  if u in covered then Blurred(img, kernel, imgBlur[..], u)
                  else imgBlur[u] == old(imgBlur[u])
    {
      assert portions[i] in layout;
      var visited := BlurPortion(portions[i]);
      assert layout[..i + 1][..i] == layout[..i];
      covered := covered + set v | v in visited;
      i := i + 1;
    }
    if mallocSucceeds {
      assert layout[..i] == layout;
      LayoutCoversAll(img, imgBlur, kernel);
    }
  }
}
