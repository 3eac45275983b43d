/** Fixed-width histograms of tile pixels and the two-sample
    Kolmogorov-Smirnov statistic between two of them
    (oceanprefilter/histogram_compare.go). Go's float64 values are exact
    reals here. */
module Histograms {
  import opened Geometry

  /** An 8-bit gray value, the luminance of one pixel. */
  type Gray = v: int | 0 <= v < 256

  /** Go's Histogram: the number of values counted, one count per bucket
      and the width of a bucket. */
  datatype Histogram = Histogram(count: nat, buckets: seq<nat>, spacing: real)

  /** Number of buckets of a gray histogram: 8 gray levels per bucket. */
  const GrayBuckets := 32

  // ---------------------------------------------------------------------
  // Sums

  function Sum(s: seq<nat>): nat {
    if |s| == 0 then 0 else Sum(s[..|s| - 1]) + s[|s| - 1]
  }

  /** Adding one to a single entry adds one to the sum. */
  lemma {:induction false} SumIncrement(s: seq<nat>, k: int)
    requires 0 <= k < |s|
    ensures Sum(s[k := s[k] + 1]) == Sum(s) + 1
    decreases |s|
  {
    var t := s[k := s[k] + 1];
    assert t[..|t| - 1] == if k < |s| - 1 then s[..|s| - 1][k := s[k] + 1] else s[..|s| - 1];
    if k < |s| - 1 {
      SumIncrement(s[..|s| - 1], k);
    }
  }

  /** The sum of a prefix never exceeds the sum of a longer prefix. */
  lemma {:induction false} SumPrefixMono(s: seq<nat>, i: int, j: int)
    requires 0 <= i <= j <= |s|
    ensures Sum(s[..i]) <= Sum(s[..j])
    decreases j
  {
    if i < j {
      assert s[..j][..j - 1] == s[..j - 1];
      SumPrefixMono(s, i, j - 1);
    }
  }

  /** An all-zero sequence sums to zero. */
  lemma {:induction false} SumZeros(n: nat)
    ensures Sum(seq(n, _ => 0)) == 0
    decreases n
  {
    if n > 0 {
      assert seq(n, _ => 0)[..n - 1] == seq(n - 1, _ => 0);
      SumZeros(n - 1);
    }
  }

  // ---------------------------------------------------------------------
  // Hist

  /** Go's int() conversion of a float: truncation toward zero. */
  function Trunc(x: real): (r: int)
    ensures x >= 0.0 ==> r == x.Floor
    ensures x < 0.0 ==> r == -((-x).Floor)
  {
    if x >= 0.0 then x.Floor else -((-x).Floor)
  }

  /** A value Hist keeps: not at or above maxVal and not below minVal. */
  predicate InRange(val: real, minVal: real, maxVal: real) {
    !(val >= maxVal || val < minVal)
  }

  /** The bucket width: the range divided into `buckets` equal parts. */
  function Spacing(buckets: int, minVal: real, maxVal: real): real
    requires buckets > 0
  {
    (maxVal - minVal) / buckets as real
  }

  /** The bucket index Hist computes for a value. */
  function BucketOf(val: real, minVal: real, space: real): int
    requires space != 0.0
  {
    Trunc((val - minVal) / space)
  }

  /** Every value Hist keeps gets an index in [0, buckets): the panic in
      Hist cannot be reached. */
  lemma BucketInRange(buckets: int, minVal: real, maxVal: real, val: real)
    requires buckets > 0 && InRange(val, minVal, maxVal)
    ensures Spacing(buckets, minVal, maxVal) > 0.0
    ensures 0 <= BucketOf(val, minVal, Spacing(buckets, minVal, maxVal)) < buckets
  {
    var space := Spacing(buckets, minVal, maxVal);
    var n := buckets as real;
    assert maxVal - minVal == space * n;
    assert space > 0.0;
    var q := (val - minVal) / space;
    assert q * space == val - minVal;
    assert q >= 0.0;
    assert q.Floor as real <= q;
  }

  /** The number of values Hist keeps. */
  function InRangeCount(input: seq<real>, minVal: real, maxVal: real): (c: nat)
    ensures c <= |input|
  {
    if |input| == 0 then 0
    else
      var last := if InRange(input[|input| - 1], minVal, maxVal) then 1 else 0;
      InRangeCount(input[..|input| - 1], minVal, maxVal) + last
  }

  /** The bucket counts after counting one more value. */
  function Bump(counts: seq<nat>, buckets: int, minVal: real, maxVal: real, val: real): (r: seq<nat>)
    requires buckets > 0 && |counts| == buckets
    ensures |r| == buckets
  {
    if !InRange(val, minVal, maxVal) then counts
    else
      BucketInRange(buckets, minVal, maxVal, val);
      var b := BucketOf(val, minVal, Spacing(buckets, minVal, maxVal));
      counts[b := counts[b] + 1]
  }

  /** The bucket counts after counting every value of the input in order. */
  function Tally(buckets: int, minVal: real, maxVal: real, input: seq<real>): (r: seq<nat>)
    requires buckets > 0
    ensures |r| == buckets
  {
    if |input| == 0 then seq(buckets, _ => 0)
    else Bump(Tally(buckets, minVal, maxVal, input[..|input| - 1]), buckets, minVal, maxVal, input[|input| - 1])
  }

  /** The histogram Hist returns. */
  function HistOf(buckets: int, minVal: real, maxVal: real, input: seq<real>): Histogram
    requires buckets > 0
  {
    Histogram(InRangeCount(input, minVal, maxVal), Tally(buckets, minVal, maxVal, input), Spacing(buckets, minVal, maxVal))
  }

  /** The number of kept values that fall in bucket k: an independent
      description of one bucket's count. */
  function CountInBucket(buckets: int, minVal: real, maxVal: real, input: seq<real>, k: int): nat
    requires buckets > 0
  {
    if |input| == 0 then 0
    else
      var v := input[|input| - 1];
      var last := if InRange(v, minVal, maxVal) && BucketOf(v, minVal, Spacing(buckets, minVal, maxVal)) == k then 1 else 0;
      CountInBucket(buckets, minVal, maxVal, input[..|input| - 1], k) + last
  }

  /** Hist: `buckets` evenly spaced buckets over [minVal, maxVal); values
      outside that range are discarded. */
  method Hist(buckets: int, minVal: real, maxVal: real, input: seq<real>) returns (hist: Histogram)
    requires buckets > 0
    ensures hist == HistOf(buckets, minVal, maxVal, input)
  {
    var space := (maxVal - minVal) / buckets as real;
    var bkts := new nat[buckets](_ => 0);
    var count: nat := 0;
    for k := 0 to |input|
      invariant bkts[..] == Tally(buckets, minVal, maxVal, input[..k])
      invariant count == InRangeCount(input[..k], minVal, maxVal)
    {
      var val := input[k];
      assert input[..k + 1][..k] == input[..k];
      if val >= maxVal || val < minVal {
        continue;
      }
      var bucketIndex := Trunc((val - minVal) / space);
      BucketInRange(buckets, minVal, maxVal, val);
      if bucketIndex < 0 || bucketIndex > bkts.Length - 1 {
        assert false;
      }
      count := count + 1;
      bkts[bucketIndex] := bkts[bucketIndex] + 1;
    }
    assert input[..|input|] == input;
    hist := Histogram(count, bkts[..], space);
  }

  /** Hist returns exactly `buckets` buckets whose counts add up to Count,
      and Count is the number of values in [minVal, maxVal). */
  lemma {:induction false} HistCounts(buckets: int, minVal: real, maxVal: real, input: seq<real>)
    requires buckets > 0
    ensures var h := HistOf(buckets, minVal, maxVal, input);
      && |h.buckets| == buckets
      && h.count == InRangeCount(input, minVal, maxVal)
      && Sum(h.buckets) == h.count
    decreases |input|
  {
    if |input| == 0 {
      SumZeros(buckets);
    } else {
      var init := input[..|input| - 1];
      HistCounts(buckets, minVal, maxVal, init);
      var v := input[|input| - 1];
      if InRange(v, minVal, maxVal) {
        BucketInRange(buckets, minVal, maxVal, v);
        SumIncrement(Tally(buckets, minVal, maxVal, init), BucketOf(v, minVal, Spacing(buckets, minVal, maxVal)));
      }
    }
  }

  /** Bucket k of Hist counts exactly the kept values whose index is k. */
  lemma {:induction false} HistBucketContents(buckets: int, minVal: real, maxVal: real, input: seq<real>, k: int)
    requires buckets > 0 && 0 <= k < buckets
    ensures HistOf(buckets, minVal, maxVal, input).buckets[k] == CountInBucket(buckets, minVal, maxVal, input, k)
    decreases |input|
  {
    if |input| > 0 {
      HistBucketContents(buckets, minVal, maxVal, input[..|input| - 1], k);
    }
  }

  /** A value at or above maxVal, or below minVal, changes nothing. */
  lemma OutOfRangeSkipped(buckets: int, minVal: real, maxVal: real, input: seq<real>, val: real)
    requires buckets > 0 && !InRange(val, minVal, maxVal)
    ensures HistOf(buckets, minVal, maxVal, input + [val]) == HistOf(buckets, minVal, maxVal, input)
  {
    assert (input + [val])[..|input|] == input;
  }

  // ---------------------------------------------------------------------
  // Gray histograms

  /** The pixel values as Go's float64 slice. */
  function AsReals(pixels: seq<Gray>): (r: seq<real>)
    ensures |r| == |pixels|
    ensures forall k :: 0 <= k < |pixels| ==> r[k] == pixels[k] as real
  {
    if |pixels| == 0 then [] else AsReals(pixels[..|pixels| - 1]) + [pixels[|pixels| - 1] as real]
  }

  /** The histogram createGrayHistograms builds for one tile: 32 buckets
      over [0, 256). */
  function GrayHist(pixels: seq<Gray>): Histogram {
    HistOf(GrayBuckets, 0.0, 256.0, AsReals(pixels))
  }

  /** In a gray histogram, gray value v lands in bucket v / 8. */
  lemma GrayBucket(v: Gray)
    ensures InRange(v as real, 0.0, 256.0)
    ensures Spacing(GrayBuckets, 0.0, 256.0) == 8.0
    ensures BucketOf(v as real, 0.0, 8.0) == v / 8
  {
    var q := v / 8;
    var r := v % 8;
    assert v == 8 * q + r;
    assert (v as real - 0.0) / 8.0 == q as real + r as real / 8.0;
  }

  /** Every pixel of a tile is counted: a gray histogram's Count is the
      number of pixels. */
  lemma {:induction false} GrayCountsEveryPixel(pixels: seq<Gray>)
    ensures InRangeCount(AsReals(pixels), 0.0, 256.0) == |pixels|
    decreases |pixels|
  {
    if |pixels| > 0 {
      var init := pixels[..|pixels| - 1];
      assert AsReals(pixels)[..|pixels| - 1] == AsReals(init);
      GrayCountsEveryPixel(init);
      GrayBucket(pixels[|pixels| - 1]);
    }
  }

  /** A gray histogram: 32 buckets whose counts add up to the number of
      pixels. */
  lemma GrayHistShape(pixels: seq<Gray>)
    ensures var h := GrayHist(pixels);
      && |h.buckets| == GrayBuckets && h.count == |pixels| && Sum(h.buckets) == |pixels|
      && h.spacing == 8.0
  {
    HistCounts(GrayBuckets, 0.0, 256.0, AsReals(pixels));
    GrayCountsEveryPixel(pixels);
  }

  // ---------------------------------------------------------------------
  // Reading a tile's pixels

  /** An image.Gray: its bounds and the luminance of every pixel. */
  datatype GrayImage = GrayImage(bounds: Rect, lum: (int, int) -> Gray)

  /** image.Gray.GrayAt: the luminance at (x, y), and 0 for a point outside
      the bounds. */
  function GrayAt(img: GrayImage, x: int, y: int): Gray {
    if Contains(img.bounds, Point(x, y)) then img.lum(x, y) else 0
  }

  /** The first n values of column x of the pixel loop of
      createGrayHistograms when it reads relative to (ox, oy):
      GrayAt(ox + x, oy + y) for y = 0 .. n-1. */
  function ColumnPrefix(img: GrayImage, ox: int, oy: int, x: int, n: nat): (col: seq<Gray>)
    ensures |col| == n
  {
    if n == 0 then [] else ColumnPrefix(img, ox, oy, x, n - 1) + [GrayAt(img, ox + x, oy + n - 1)]
  }

  /** Row y of a column prefix is the value read at (ox + x, oy + y). */
  lemma {:induction false} ColumnPrefixAt(img: GrayImage, ox: int, oy: int, x: int, n: nat, y: int)
    requires 0 <= y < n
    ensures ColumnPrefix(img, ox, oy, x, n)[y] == GrayAt(img, ox + x, oy + y)
  {
    if y < n - 1 {
      ColumnPrefixAt(img, ox, oy, x, n - 1, y);
    }
  }

  /** Column x of the pixel loop: one value per row of the image. */
  function Column(img: GrayImage, ox: int, oy: int, x: int): (col: seq<Gray>)
    ensures |col| == Dy(img.bounds)
  {
    ColumnPrefix(img, ox, oy, x, Dy(img.bounds))
  }

  /** The values the pixel loop reads in its first n columns, x outer and
      y inner, relative to (ox, oy). */
  function Scan(img: GrayImage, ox: int, oy: int, n: nat): seq<Gray> {
    if n == 0 then [] else Scan(img, ox, oy, n - 1) + Column(img, ox, oy, n - 1)
  }

  /** Reading n columns yields n values per row of the image. */
  lemma {:induction false} ScanSize(img: GrayImage, ox: int, oy: int, n: nat)
    ensures |Scan(img, ox, oy, n)| == n * Dy(img.bounds)
  {
    if n > 0 {
      ScanSize(img, ox, oy, n - 1);
      assert n * Dy(img.bounds) == (n - 1) * Dy(img.bounds) + Dy(img.bounds);
    }
  }

  /** What the loop of createGrayHistograms reads as written: GrayAt(x, y)
      from (0, 0), whatever the image's bounds. It reads Dx columns of Dy
      values, and an image off the origin of its own extent reads as all
      zeros. */
  function ScanAsWritten(img: GrayImage): (pix: seq<Gray>)
    ensures |pix| == Dx(img.bounds) * Dy(img.bounds)
    ensures OffOrigin(img.bounds) ==> forall k :: 0 <= k < |pix| ==> pix[k] == 0
  {
    ScanSize(img, 0, 0, Dx(img.bounds));
    if OffOrigin(img.bounds) then
      ScanOffOriginBlack(img, Dx(img.bounds));
      Scan(img, 0, 0, Dx(img.bounds))
    else
      Scan(img, 0, 0, Dx(img.bounds))
  }

  /** The tile's own pixels, read relative to the top-left corner of its
      bounds: what the histogram of a tile is meant to count, Dx columns of
      Dy values. */
  function TilePixels(img: GrayImage): (pix: seq<Gray>)
    ensures |pix| == |ScanAsWritten(img)|
  {
    ScanLength(img, img, img.bounds.min.x, img.bounds.min.y, Dx(img.bounds));
    Scan(img, img.bounds.min.x, img.bounds.min.y, Dx(img.bounds))
  }

  /** Reading relative to the corner of the bounds, column x row y is the
      tile's pixel (min.x + x, min.y + y). */
  lemma TileColumnReadsTile(img: GrayImage, x: int, y: int)
    requires 0 <= x < Dx(img.bounds) && 0 <= y < Dy(img.bounds)
    ensures Column(img, img.bounds.min.x, img.bounds.min.y, x)[y]
         == img.lum(img.bounds.min.x + x, img.bounds.min.y + y)
  {
    var r := img.bounds;
    ColumnPrefixAt(img, r.min.x, r.min.y, x, Dy(r), y);
    assert Contains(r, Point(r.min.x + x, r.min.y + y));
  }

  /** v is the luminance of some pixel inside the image's bounds. */
  ghost predicate InTile(img: GrayImage, v: Gray) {
    exists p :: Contains(img.bounds, p) && v == img.lum(p.x, p.y)
  }

  /** Every value of the first n columns read relative to the corner is the
      luminance of a pixel inside the tile. */
  lemma {:induction false} ScanInside(img: GrayImage, n: nat)
    requires n <= Dx(img.bounds)
    ensures forall k :: 0 <= k < |Scan(img, img.bounds.min.x, img.bounds.min.y, n)| ==>
      InTile(img, Scan(img, img.bounds.min.x, img.bounds.min.y, n)[k])
  {
    var r := img.bounds;
    if n > 0 {
      ScanInside(img, n - 1);
      var init := Scan(img, r.min.x, r.min.y, n - 1);
      var col := Column(img, r.min.x, r.min.y, n - 1);
      assert Scan(img, r.min.x, r.min.y, n) == init + col;
      forall k | 0 <= k < |init + col|
        ensures InTile(img, (init + col)[k])
      {
        if k < |init| {
          assert (init + col)[k] == init[k];
        } else {
          var y := k - |init|;
          assert (init + col)[k] == col[y];
          TileColumnReadsTile(img, n - 1, y);
          var p := Point(r.min.x + (n - 1), r.min.y + y);
          assert Contains(r, p) && (init + col)[k] == img.lum(p.x, p.y);
        }
      }
    }
  }

  /** The corrected read sees only the tile: every value it counts is a
      pixel inside the bounds. */
  lemma TilePixelsInside(img: GrayImage)
    ensures forall k :: 0 <= k < |TilePixels(img)| ==> InTile(img, TilePixels(img)[k])
  {
    ScanInside(img, Dx(img.bounds));
  }

  /** For an image whose bounds start at the origin, as for tile (0, 0) and
      for every resized tile, both reads are the same. */
  lemma AtOriginReadsAgree(img: GrayImage)
    requires img.bounds.min == Point(0, 0)
    ensures ScanAsWritten(img) == TilePixels(img)
  {
  }

  /** Reading from (0, 0) in an image whose bounds lie off the origin of
      its own extent: every read falls outside the bounds and yields 0. */
  lemma {:induction false} ScanOffOriginBlack(img: GrayImage, n: nat)
    requires OffOrigin(img.bounds) && n <= Dx(img.bounds)
    ensures forall k :: 0 <= k < |Scan(img, 0, 0, n)| ==> Scan(img, 0, 0, n)[k] == 0
  {
    if n > 0 {
      ScanOffOriginBlack(img, n - 1);
      var init := Scan(img, 0, 0, n - 1);
      var col := Column(img, 0, 0, n - 1);
      assert Scan(img, 0, 0, n) == init + col;
      forall k | 0 <= k < |init + col|
        ensures (init + col)[k] == 0
      {
        if k < |init| {
          assert (init + col)[k] == init[k];
        } else {
          assert (init + col)[k] == col[k - |init|];
          ColumnPrefixAt(img, 0, 0, n - 1, Dy(img.bounds), k - |init|);
        }
      }
    }
  }

  /** The number of values read depends only on the bounds. */
  lemma {:induction false} ScanLength(a: GrayImage, b: GrayImage, ox: int, oy: int, n: nat)
    requires a.bounds == b.bounds
    ensures |Scan(a, ox, oy, n)| == |Scan(b, 0, 0, n)|
  {
    if n > 0 {
      ScanLength(a, b, ox, oy, n - 1);
    }
  }

  /** As written, a tile off the origin counts only zeros: its histogram
      is the same whatever the camera shows, so it never triggers. */
  lemma OffOriginTileNeverTriggers(img1: GrayImage, img2: GrayImage, thresh: real)
    requires img1.bounds == img2.bounds && OffOrigin(img1.bounds) && thresh > 0.0
    ensures ScanAsWritten(img1) == ScanAsWritten(img2)
    ensures !HistogramTrigger(GrayHist(ScanAsWritten(img1)), GrayHist(ScanAsWritten(img2)), thresh)
  {
    var n := Dx(img1.bounds);
    ScanOffOriginBlack(img1, n);
    ScanOffOriginBlack(img2, n);
    ScanLength(img1, img2, 0, 0, n);
    UnchangedNeverTriggers(GrayHist(ScanAsWritten(img1)), thresh);
  }

  /** A 2 x 2 tile at (2, 0)-(4, 2) of an image that is 200 everywhere:
      read as written the first value is 0, read from the tile it is 200. */
  lemma ReadFromOriginMissesTile()
    ensures var img := GrayImage(Rect(Point(2, 0), Point(4, 2)), (x: int, y: int) => 200);
      ScanAsWritten(img)[0] == 0 && TilePixels(img)[0] == 200
  {
    var img := GrayImage(Rect(Point(2, 0), Point(4, 2)), (x: int, y: int) => 200);
    assert Dx(img.bounds) == 2 && Dy(img.bounds) == 2;
    assert Scan(img, 0, 0, 1) == Column(img, 0, 0, 0);
    assert Scan(img, 0, 0, 2) == Column(img, 0, 0, 0) + Column(img, 0, 0, 1);
    assert Scan(img, 2, 0, 1) == Column(img, 2, 0, 0);
    assert Scan(img, 2, 0, 2) == Column(img, 2, 0, 0) + Column(img, 2, 0, 1);
    ColumnPrefixAt(img, 0, 0, 0, 2, 0);
    ColumnPrefixAt(img, 2, 0, 0, 2, 0);
  }

  /** Converting to floats distributes over concatenation. */
  lemma {:induction false} AsRealsAppend(a: seq<Gray>, b: seq<Gray>)
    ensures AsReals(a + b) == AsReals(a) + AsReals(b)
    decreases |b|
  {
    if |b| > 0 {
      var n := |b| - 1;
      AsRealsAppend(a, b[..n]);
      assert (a + b)[..|a| + n] == a + b[..n];
    } else {
      assert a + b == a;
    }
  }

  /** The inner loop of createGrayHistograms: the float values of column x,
      top to bottom, read relative to (ox, oy). */
  method ReadColumn(img: GrayImage, ox: int, oy: int, x: int) returns (vals: seq<real>)
    ensures vals == AsReals(Column(img, ox, oy, x))
  {
    vals := [];
    for y := 0 to Dy(img.bounds)
      invariant vals == AsReals(ColumnPrefix(img, ox, oy, x, y))
    {
      var c := GrayAt(img, ox + x, oy + y);
      ghost var prefix := ColumnPrefix(img, ox, oy, x, y);
      assert (prefix + [c])[..y] == prefix;
      vals := vals + [c as real];
    }
  }

  /** createGrayHistograms: the pixel loop over the tile's columns and rows,
      then one histogram of 32 buckets over [0, 256). The loop reads each
      value relative to the top-left corner of the tile's bounds (see
      ScanAsWritten for the read from (0, 0)). */
  method CreateGrayHistograms(img: GrayImage) returns (hists: seq<Histogram>)
    ensures hists == [GrayHist(TilePixels(img))]
  {
    var ox, oy := img.bounds.min.x, img.bounds.min.y;
    var pix: seq<real> := [];
    for x := 0 to Dx(img.bounds)
      invariant pix == AsReals(Scan(img, ox, oy, x))
    {
      var vals := ReadColumn(img, ox, oy, x);
      AsRealsAppend(Scan(img, ox, oy, x), Column(img, ox, oy, x));
      pix := pix + vals;
    }
    var h := Hist(GrayBuckets, 0.0, 256.0, pix);
    hists := [h];
  }

  // ---------------------------------------------------------------------
  // Empirical CDF

  /** histogramToECDF: entry i is the fraction of the counted values that
      fall in buckets 0..i; all zeros when nothing was counted. */
  function Ecdf(h: Histogram): (e: seq<real>)
    ensures |e| == |h.buckets|
    ensures h.count == 0 ==> forall i :: 0 <= i < |e| ==> e[i] == 0.0
  {
    seq(|h.buckets|, i requires 0 <= i < |h.buckets| =>
      if h.count == 0 then 0.0 else Sum(h.buckets[..i + 1]) as real / h.count as real)
  }

  /** histogramToECDF: a running cumulative count divided by the total. */
  method HistogramToECDF(hist: Histogram) returns (ecdf: seq<real>)
    ensures ecdf == Ecdf(hist)
  {
    var total := hist.count as real;
    var e := new real[|hist.buckets|](_ => 0.0);
    var cumulativeCount := 0.0;
    if total == 0.0 {
      return e[..];
    }
    for i := 0 to |hist.buckets|
      invariant cumulativeCount == Sum(hist.buckets[..i]) as real
      invariant forall k :: 0 <= k < i ==> e[k] == Ecdf(hist)[k]
    {
      assert hist.buckets[..i + 1][..i] == hist.buckets[..i];
      cumulativeCount := cumulativeCount + hist.buckets[i] as real;
      e[i] := cumulativeCount / total;
    }
    ecdf := e[..];
  }

  /** Entry i of a non-empty histogram's ECDF, compared with entry j >= i
      and with the total. */
  lemma EcdfEntryMono(h: Histogram, i: int, j: int)
    requires h.count > 0 && Sum(h.buckets) == h.count
    requires 0 <= i <= j < |h.buckets|
    ensures 0.0 <= Ecdf(h)[i] <= Ecdf(h)[j] <= 1.0
  {
    var b := h.buckets;
    var c := h.count as real;
    SumPrefixMono(b, i + 1, j + 1);
    SumPrefixMono(b, j + 1, |b|);
    assert b[..|b|] == b;
    var x := Sum(b[..i + 1]) as real;
    var y := Sum(b[..j + 1]) as real;
    assert Ecdf(h)[i] == x / c;
    assert Ecdf(h)[j] == y / c;
    DivMono(x, y, c);
    DivMono(y, c, c);
  }

  /** For a histogram whose count is its bucket sum, the ECDF never
      decreases, stays within [0, 1] and ends at 1. */
  lemma EcdfIsDistribution(h: Histogram)
    requires h.count > 0 && Sum(h.buckets) == h.count
    ensures var e := Ecdf(h);
      && (forall i, j :: 0 <= i <= j < |e| ==> e[i] <= e[j])
      && (forall i :: 0 <= i < |e| ==> 0.0 <= e[i] <= 1.0)
      && (|e| > 0 ==> e[|e| - 1] == 1.0)
  {
    var e := Ecdf(h);
    forall i, j | 0 <= i <= j < |e|
      ensures e[i] <= e[j]
    {
      EcdfEntryMono(h, i, j);
    }
    forall i | 0 <= i < |e|
      ensures 0.0 <= e[i] <= 1.0
    {
      EcdfEntryMono(h, i, i);
    }
    if |e| > 0 {
      var c := h.count as real;
      assert h.buckets[..|h.buckets|] == h.buckets;
      assert e[|e| - 1] == c / c;
      DivMono(c, c, c);
    }
  }

  lemma DivMono(x: real, y: real, c: real)
    requires 0.0 <= x <= y && c > 0.0
    ensures 0.0 <= x / c <= y / c && c / c == 1.0
  {
    assert y / c - x / c == (y - x) / c;
  }

  // ---------------------------------------------------------------------
  // Kolmogorov-Smirnov statistic

  function Abs(x: real): real {
    if x < 0.0 then -x else x
  }

  /** The largest |e1[i] - e2[i]| over the indices of e1, or 0 when e1 is
      empty: kolmogorovSmirnovTest's result. */
  function MaxGap(e1: seq<real>, e2: seq<real>): (m: real)
    requires |e1| <= |e2|
    ensures m >= 0.0
  {
    if |e1| == 0 then 0.0
    else
      var n := |e1| - 1;
      var rest := MaxGap(e1[..n], e2);
      var diff := Abs(e1[n] - e2[n]);
      if diff > rest then diff else rest
  }

  /** The statistic bounds every pointwise gap and is either 0 or one of
      the gaps: it is the maximum gap. */
  lemma {:induction false} MaxGapIsMaximum(e1: seq<real>, e2: seq<real>)
    requires |e1| <= |e2|
    ensures forall i :: 0 <= i < |e1| ==> Abs(e1[i] - e2[i]) <= MaxGap(e1, e2)
    ensures MaxGap(e1, e2) == 0.0 || exists i :: 0 <= i < |e1| && MaxGap(e1, e2) == Abs(e1[i] - e2[i])
    decreases |e1|
  {
    if |e1| > 0 {
      var n := |e1| - 1;
      MaxGapIsMaximum(e1[..n], e2);
      if MaxGap(e1, e2) != 0.0 && MaxGap(e1, e2) == MaxGap(e1[..n], e2) {
        var i :| 0 <= i < n && MaxGap(e1[..n], e2) == Abs(e1[..n][i] - e2[i]);
        assert MaxGap(e1, e2) == Abs(e1[i] - e2[i]);
      }
      forall i | 0 <= i < |e1|
        ensures Abs(e1[i] - e2[i]) <= MaxGap(e1, e2)
      {
        if i < n {
          assert e1[..n][i] == e1[i];
        }
      }
    }
  }

  /** kolmogorovSmirnovTest: a running maximum of the pointwise gaps.
      Go indexes ecdf2 at every index of ecdf1, so ecdf2 may not be
      shorter. */
  method KolmogorovSmirnovTest(ecdf1: seq<real>, ecdf2: seq<real>) returns (maxDiff: real)
    requires |ecdf1| <= |ecdf2|
    ensures maxDiff == MaxGap(ecdf1, ecdf2)
  {
    maxDiff := 0.0;
    for i := 0 to |ecdf1|
      invariant maxDiff == MaxGap(ecdf1[..i], ecdf2)
    {
      assert ecdf1[..i + 1][..i] == ecdf1[..i];
      var diff := Abs(ecdf1[i] - ecdf2[i]);
      if diff > maxDiff {
        maxDiff := diff;
      }
    }
    assert ecdf1[..|ecdf1|] == ecdf1;
  }

  /** The statistic of an ECDF against itself is 0. */
  lemma {:induction false} MaxGapSelf(e: seq<real>)
    ensures MaxGap(e, e) == 0.0
    decreases |e|
  {
    if |e| > 0 {
      MaxGapPrefix(e[..|e| - 1], e);
      MaxGapSelf(e[..|e| - 1]);
    }
  }

  /** Only the first |e1| entries of e2 matter. */
  lemma {:induction false} MaxGapPrefix(e1: seq<real>, e2: seq<real>)
    requires |e1| <= |e2|
    ensures MaxGap(e1, e2) == MaxGap(e1, e2[..|e1|])
    decreases |e1|
  {
    if |e1| > 0 {
      MaxGapPrefix(e1[..|e1| - 1], e2);
      MaxGapPrefix(e1[..|e1| - 1], e2[..|e1|]);
      assert e2[..|e1|][..|e1| - 1] == e2[..|e1| - 1];
    }
  }

  /** For ECDFs of equal length the statistic is symmetric. */
  lemma {:induction false} MaxGapSymmetric(e1: seq<real>, e2: seq<real>)
    requires |e1| == |e2|
    ensures MaxGap(e1, e2) == MaxGap(e2, e1)
    decreases |e1|
  {
    if |e1| > 0 {
      var n := |e1| - 1;
      MaxGapPrefix(e1[..n], e2);
      MaxGapPrefix(e2[..n], e1);
      MaxGapSymmetric(e1[..n], e2[..n]);
      assert Abs(e1[n] - e2[n]) == Abs(e2[n] - e1[n]);
    }
  }

  // ---------------------------------------------------------------------
  // Trigger

  /** histogramTrigger: the KS statistic between the two histograms' ECDFs
      reaches the threshold, so a threshold of 0 or below always fires (the
      full characterisation is TriggerIffSomeGap). */
  function HistogramTrigger(oldHist: Histogram, newHist: Histogram, thresh: real): (fires: bool)
    requires |oldHist.buckets| <= |newHist.buckets|
    ensures thresh <= 0.0 ==> fires
  {
    MaxGap(Ecdf(oldHist), Ecdf(newHist)) >= thresh
  }

  /** For a positive threshold the trigger fires exactly when the two
      ECDFs differ by at least the threshold at some bucket; a threshold of
      0 or below always fires. */
  lemma TriggerIffSomeGap(oldHist: Histogram, newHist: Histogram, thresh: real)
    requires |oldHist.buckets| <= |newHist.buckets|
    ensures thresh > 0.0 ==>
      (HistogramTrigger(oldHist, newHist, thresh) <==>
        exists i :: 0 <= i < |oldHist.buckets| && Abs(Ecdf(oldHist)[i] - Ecdf(newHist)[i]) >= thresh)
    ensures thresh <= 0.0 ==> HistogramTrigger(oldHist, newHist, thresh)
  {
    var e1, e2 := Ecdf(oldHist), Ecdf(newHist);
    MaxGapIsMaximum(e1, e2);
    if thresh > 0.0 && HistogramTrigger(oldHist, newHist, thresh) {
      var i :| 0 <= i < |e1| && MaxGap(e1, e2) == Abs(e1[i] - e2[i]);
    }
  }

  /** An unchanged tile never triggers for a positive threshold. */
  lemma UnchangedNeverTriggers(h: Histogram, thresh: real)
    requires thresh > 0.0
    ensures !HistogramTrigger(h, h, thresh)
  {
    MaxGapSelf(Ecdf(h));
  }
}
