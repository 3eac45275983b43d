/** histogramChangeFilter (oceanprefilter/histogram_compare.go): finds the
    horizon, tiles the sea below it, builds one gray histogram per tile and
    compares each with the same tile of the previous frame. */
module ChangeDetection {
  import opened Wrappers
  import opened Geometry
  import opened Histograms

  /** A camera frame as the filter sees it. `mask` is the binary image the
      OpenCV steps of findHorizonLine produce (None when the conversion to
      an OpenCV matrix fails); `tileImage(cropY, t)` is the gray image
      handed to createGrayHistograms for tile t of the image cropped at row
      cropY: the copy of the tile, which keeps the tile's bounds, or its
      resized version, which starts at the origin. */
  datatype Frame = Frame(
    width: nat,
    height: nat,
    mask: Option<seq<seq<int>>>,
    tileImage: (int, Tile) -> GrayImage)

  /** A frame at least one pixel wide whose mask has one row per image row
      and `width` columns. */
  predicate WellFormed(f: Frame) {
    f.width >= 1 && (f.mask.Some? ==> |f.mask.value| == f.height && IsMask(f.mask.value, f.width))
  }

  /** The errors histogramChangeFilter returns. */
  datatype FilterError =
    | HorizonFailed
    | HorizonOutOfRange(cropY: int)
    | SplitFailed(cause: SplitError)
    | TileCountMismatch(tiles: nat, baseline: nat)
    | BucketCountMismatch(oldBuckets: nat, newBuckets: nat)

  /** histogramChangeFilter's (trigger, histograms, error) triple. */
  datatype FilterOutcome = FilterOutcome(triggered: bool, hists: seq<Histogram>, err: Option<FilterError>)

  /** Every error returns (false, nil, err). */
  function Fail(e: FilterError): FilterOutcome {
    FilterOutcome(false, [], Some(e))
  }

  /** The crop line: the lower of the two horizon points. It is one of
      them, lies inside the mask, and below it neither edge column has a
      foreground pixel. */
  function CropLine(mask: seq<seq<int>>, width: int): (cropY: int)
    requires width >= 1 && IsMask(mask, width)
    ensures cropY == LastForeground(mask, 0) || cropY == LastForeground(mask, width - 1)
    ensures cropY >= LastForeground(mask, 0) && cropY >= LastForeground(mask, width - 1)
    ensures 0 <= cropY && (|mask| > 0 ==> cropY < |mask|)
    ensures forall y :: cropY < y < |mask| ==> mask[y][0] != Foreground && mask[y][width - 1] != Foreground
  {
    var y1 := LastForeground(mask, 0);
    var y2 := LastForeground(mask, width - 1);
    if y1 >= y2 then y1 else y2
  }

  /** A crop line on or next to the top or the bottom edge means no
      horizon was found. */
  predicate DegenerateCrop(cropY: int, height: int) {
    cropY >= height - 1 || cropY <= 1
  }

  /** A crop line that passes the check lies strictly inside the image, so
      splitUpImageConst's crop error cannot follow it: the split then fails
      only on a non-positive tile size. */
  lemma CropCheckRulesOutCropError(cropY: int, width: nat, height: nat, exZone: Option<Rect>, h: int, w: int)
    requires !DegenerateCrop(cropY, height)
    ensures 2 <= cropY < height - 1
    ensures SplitPlan(Some(Size(width, height)), exZone, cropY, h, w) != Err(CropOutsideImage(cropY))
    ensures SplitPlan(Some(Size(width, height)), exZone, cropY, h, w).Ok? <==> h > 0 && w > 0
  {
  }

  /** One gray histogram per tile, in tile order. */
  function TileHists(f: Frame, cropY: int, tiles: seq<Tile>): (hs: seq<Histogram>)
    ensures |hs| == |tiles|
  {
    if |tiles| == 0 then []
    else
      var n := |tiles| - 1;
      TileHists(f, cropY, tiles[..n]) + [GrayHist(TilePixels(f.tileImage(cropY, tiles[n])))]
  }

  /** Histogram i of the frame is the gray histogram of tile i. */
  lemma {:induction false} TileHistsAt(f: Frame, cropY: int, tiles: seq<Tile>, i: nat)
    requires i < |tiles|
    ensures TileHists(f, cropY, tiles)[i] == GrayHist(TilePixels(f.tileImage(cropY, tiles[i])))
    decreases |tiles|
  {
    var n := |tiles| - 1;
    var init := TileHists(f, cropY, tiles[..n]);
    assert TileHists(f, cropY, tiles) == init + [GrayHist(TilePixels(f.tileImage(cropY, tiles[n])))];
    if i < n {
      TileHistsAt(f, cropY, tiles[..n], i);
      assert tiles[..n][i] == tiles[i];
    }
  }

  /** The comparison loop against a baseline of the same length: the first
      pair whose bucket counts differ is an error, otherwise the OR of the
      per-tile triggers. */
  function Compare(olds: seq<Histogram>, news: seq<Histogram>, thresh: real): (r: Result<bool, FilterError>)
    requires |olds| == |news|
    ensures r.Err? ==> r.error.BucketCountMismatch? && r.error.oldBuckets != r.error.newBuckets
    ensures |news| == 0 ==> r == Ok(false)
  {
    if |news| == 0 then Ok(false)
    else
      var n := |news| - 1;
      match Compare(olds[..n], news[..n], thresh)
      case Err(e) => Err(e)
      case Ok(t) =>
        if |olds[n].buckets| != |news[n].buckets| then Err(BucketCountMismatch(|olds[n].buckets|, |news[n].buckets|))
        else Ok(t || HistogramTrigger(olds[n], news[n], thresh))
  }

  /** Two histograms the comparison loop can compare. */
  predicate SameBuckets(olds: seq<Histogram>, news: seq<Histogram>)
    requires |olds| == |news|
  {
    forall i :: 0 <= i < |olds| ==> |olds[i].buckets| == |news[i].buckets|
  }

  /** What histogramChangeFilter returns for a baseline, a frame, the
      excluded zone, the threshold and the tile size. */
  function ChangeFilter(oldHists: seq<Histogram>, f: Frame, exZone: Option<Rect>, thresh: real, h: int, w: int): (out: FilterOutcome)
    requires WellFormed(f)
    ensures out.err.Some? ==> !out.triggered && out.hists == []
    ensures |oldHists| == 0 ==> !out.triggered
  {
    if f.mask.None? then Fail(HorizonFailed)
    else
      var cropY := CropLine(f.mask.value, f.width);
      if DegenerateCrop(cropY, f.height) then Fail(HorizonOutOfRange(cropY))
      else
        match SplitPlan(Some(Size(f.width, f.height)), exZone, cropY, h, w)
        case Err(e) => Fail(SplitFailed(e))
        case Ok(tiles) =>
          if |oldHists| != 0 && |tiles| != |oldHists| then Fail(TileCountMismatch(|tiles|, |oldHists|))
          else CompareOutcome(oldHists, TileHists(f, cropY, tiles), thresh)
  }

  /** The result of the comparison loop: the new histograms untouched on a
      first frame, otherwise the comparison against the baseline. */
  function CompareOutcome(oldHists: seq<Histogram>, newHists: seq<Histogram>, thresh: real): (out: FilterOutcome)
    requires |oldHists| == 0 || |oldHists| == |newHists|
    ensures out.err.Some? ==> !out.triggered && out.hists == []
    ensures |oldHists| == 0 ==> out == FilterOutcome(false, newHists, None)
  {
    if |oldHists| == 0 then FilterOutcome(false, newHists, None)
    else
      match Compare(oldHists, newHists, thresh)
      case Err(e) => Fail(e)
      case Ok(t) => FilterOutcome(t, newHists, None)
  }

  /** histogramChangeFilter. */
  method HistogramChangeFilter(oldHists: seq<Histogram>, f: Frame, exZone: Option<Rect>, thresh: real, h: int, w: int)
    returns (trigger: bool, newHists: seq<Histogram>, err: Option<FilterError>)
    requires WellFormed(f)
    ensures FilterOutcome(trigger, newHists, err) == ChangeFilter(oldHists, f, exZone, thresh, h, w)
  {
    var firstHist := false;
    if |oldHists| == 0 {
      firstHist := true;
    }
    if f.mask.None? {
      return false, [], Some(HorizonFailed);
    }
    var linePoints := FindHorizonLine(f.mask.value, f.width);
    if |linePoints| < 2 {
      assert false;
    }
    var cropY := if linePoints[0].y >= linePoints[1].y then linePoints[0].y else linePoints[1].y;
    assert cropY == CropLine(f.mask.value, f.width);
    if cropY >= f.height - 1 || cropY <= 1 {
      return false, [], Some(HorizonOutOfRange(cropY));
    }
    var split := SplitUpImageConst(Some(Size(f.width, f.height)), exZone, cropY, h, w);
    if split.Err? {
      return false, [], Some(SplitFailed(split.error));
    }
    assert split == SplitPlan(Some(Size(f.width, f.height)), exZone, cropY, h, w);
    if !firstHist && |split.value| != |oldHists| {
      return false, [], Some(TileCountMismatch(|split.value|, |oldHists|));
    }
    trigger, newHists, err := CompareTiles(oldHists, f, cropY, split.value, thresh);
  }

  /** The loop of histogramChangeFilter over the tiles: one gray histogram
      per tile, each compared with the baseline histogram at the same
      position unless this is the first frame. */
  method CompareTiles(oldHists: seq<Histogram>, f: Frame, cropY: int, imgs: seq<Tile>, thresh: real)
    returns (trigger: bool, newHists: seq<Histogram>, err: Option<FilterError>)
    requires |oldHists| == 0 || |oldHists| == |imgs|
    ensures FilterOutcome(trigger, newHists, err) == CompareOutcome(oldHists, TileHists(f, cropY, imgs), thresh)
  {
    var firstHist := |oldHists| == 0;
    newHists := [];
    trigger := false;
    ghost var all := TileHists(f, cropY, imgs);
    for i := 0 to |imgs|
      invariant newHists == all[..i]
      invariant firstHist ==> !trigger
      invariant !firstHist ==> Compare(oldHists[..i], all[..i], thresh) == Ok(trigger)
    {
      // createGrayHistograms returns exactly one histogram per tile, so the
      // inner loop runs once and reads the baseline at i*1 + 0.
      var newHist := TileHistogram(f, cropY, imgs, i);
      assert all[..i + 1] == all[..i] + [newHist];
      var oldHist := if firstHist then None else Some(oldHists[i]);
      var splitTrigger, mismatch := CompareWithBaseline(oldHist, newHist, thresh);
      if mismatch {
        CompareSnoc(oldHists, all, i, thresh);
        CompareStopsAtError(oldHists, all, i + 1, thresh);
        return false, [], Some(BucketCountMismatch(|oldHist.value.buckets|, |newHist.buckets|));
      }
      if !firstHist {
        CompareSnoc(oldHists, all, i, thresh);
      }
      newHists := newHists + [newHist];
      if splitTrigger {
        trigger := true;
      }
    }
    assert all[..|imgs|] == all;
    if !firstHist {
      assert oldHists[..|imgs|] == oldHists;
    }
    err := None;
  }

  /** createGrayHistograms on tile i: its one histogram is histogram i of
      the frame. */
  method TileHistogram(f: Frame, cropY: int, imgs: seq<Tile>, i: nat) returns (newHist: Histogram)
    requires i < |imgs|
    ensures newHist == TileHists(f, cropY, imgs)[i]
  {
    var resultHists := CreateGrayHistograms(f.tileImage(cropY, imgs[i]));
    newHist := resultHists[0];
    TileHistsAt(f, cropY, imgs, i);
  }

  /** The body of the inner loop of histogramChangeFilter for one new
      histogram: on the first frame (no baseline histogram) nothing is
      compared; otherwise a bucket-count mismatch is reported, and else the
      histogram trigger is evaluated. */
  method CompareWithBaseline(oldHist: Option<Histogram>, newHist: Histogram, thresh: real)
    returns (splitTrigger: bool, mismatch: bool)
    ensures oldHist.None? ==> !splitTrigger && !mismatch
    ensures oldHist.Some? ==> (mismatch <==> |oldHist.value.buckets| != |newHist.buckets|)
    ensures oldHist.Some? && !mismatch ==> splitTrigger == HistogramTrigger(oldHist.value, newHist, thresh)
    ensures mismatch ==> !splitTrigger
  {
    splitTrigger := false;
    mismatch := false;
    if oldHist.Some? {
      if |oldHist.value.buckets| != |newHist.buckets| {
        return false, true;
      }
      splitTrigger := HistogramTrigger(oldHist.value, newHist, thresh);
    }
  }

  /** One more step of the comparison loop. */
  lemma CompareSnoc(olds: seq<Histogram>, news: seq<Histogram>, i: nat, thresh: real)
    requires |olds| == |news| && i < |olds|
    requires Compare(olds[..i], news[..i], thresh).Ok?
    ensures Compare(olds[..i + 1], news[..i + 1], thresh) ==
      if |olds[i].buckets| != |news[i].buckets| then Err(BucketCountMismatch(|olds[i].buckets|, |news[i].buckets|))
      else Ok(Compare(olds[..i], news[..i], thresh).value || HistogramTrigger(olds[i], news[i], thresh))
  {
    assert olds[..i + 1][..i] == olds[..i];
    assert news[..i + 1][..i] == news[..i];
  }

  /** Once the comparison fails on a prefix, it fails the same way on the
      whole sequence: later tiles are never looked at. */
  lemma {:induction false} CompareStopsAtError(olds: seq<Histogram>, news: seq<Histogram>, k: nat, thresh: real)
    requires |olds| == |news| && k <= |olds|
    requires Compare(olds[..k], news[..k], thresh).Err?
    ensures Compare(olds, news, thresh) == Compare(olds[..k], news[..k], thresh)
    decreases |olds|
  {
    if k < |olds| {
      var n := |olds| - 1;
      assert olds[..n][..k] == olds[..k];
      assert news[..n][..k] == news[..k];
      CompareStopsAtError(olds[..n], news[..n], k, thresh);
    } else {
      assert olds[..k] == olds;
      assert news[..k] == news;
    }
  }

  /** The comparison succeeds exactly when every pair has the same number
      of buckets. */
  lemma {:induction false} CompareOkIffSameBuckets(olds: seq<Histogram>, news: seq<Histogram>, thresh: real)
    requires |olds| == |news|
    ensures Compare(olds, news, thresh).Ok? <==> SameBuckets(olds, news)
    decreases |olds|
  {
    if |olds| > 0 {
      var n := |olds| - 1;
      CompareOkIffSameBuckets(olds[..n], news[..n], thresh);
      if SameBuckets(olds, news) {
        assert SameBuckets(olds[..n], news[..n]);
      } else if !SameBuckets(olds[..n], news[..n]) {
        var i :| 0 <= i < n && |olds[..n][i].buckets| != |news[..n][i].buckets|;
        assert |olds[i].buckets| != |news[i].buckets|;
      }
    }
  }

  /** When it succeeds, the comparison triggers exactly when some tile
      triggers: the OR over the tiles. */
  lemma {:induction false} CompareIsOrOverTiles(olds: seq<Histogram>, news: seq<Histogram>, thresh: real)
    requires |olds| == |news| && Compare(olds, news, thresh).Ok?
    ensures SameBuckets(olds, news)
    ensures Compare(olds, news, thresh).value <==>
      exists i :: 0 <= i < |olds| && HistogramTrigger(olds[i], news[i], thresh)
    decreases |olds|
  {
    CompareOkIffSameBuckets(olds, news, thresh);
    if |olds| > 0 {
      var n := |olds| - 1;
      CompareIsOrOverTiles(olds[..n], news[..n], thresh);
      if Compare(olds, news, thresh).value {
        if !HistogramTrigger(olds[n], news[n], thresh) {
          var i :| 0 <= i < n && HistogramTrigger(olds[..n][i], news[..n][i], thresh);
          assert HistogramTrigger(olds[i], news[i], thresh);
        }
      } else {
        forall i | 0 <= i < |olds|
          ensures !HistogramTrigger(olds[i], news[i], thresh)
        {
          if i < n {
            assert olds[..n][i] == olds[i] && news[..n][i] == news[i];
          }
        }
      }
    }
  }

  /** With no baseline the filter never triggers; when it gets past the
      horizon and the split, its histograms become the next baseline. */
  lemma FirstFrame(f: Frame, exZone: Option<Rect>, thresh: real, h: int, w: int)
    requires WellFormed(f) && f.mask.Some?
    requires !DegenerateCrop(CropLine(f.mask.value, f.width), f.height)
    requires SplitPlan(Some(Size(f.width, f.height)), exZone, CropLine(f.mask.value, f.width), h, w).Ok?
    ensures var cropY := CropLine(f.mask.value, f.width);
      var out := ChangeFilter([], f, exZone, thresh, h, w);
      && !out.triggered && out.err.None?
      && out.hists == TileHists(f, cropY, SplitPlan(Some(Size(f.width, f.height)), exZone, cropY, h, w).value)
  {
  }

  /** The errors of the filter, in the order Go checks them; every error
      returns no trigger and an empty baseline. */
  lemma FilterErrors(oldHists: seq<Histogram>, f: Frame, exZone: Option<Rect>, thresh: real, h: int, w: int)
    requires WellFormed(f)
    ensures var out := ChangeFilter(oldHists, f, exZone, thresh, h, w);
      && (f.mask.None? ==> out == Fail(HorizonFailed))
      && (f.mask.Some? && DegenerateCrop(CropLine(f.mask.value, f.width), f.height) ==>
            out == Fail(HorizonOutOfRange(CropLine(f.mask.value, f.width))))
      && (f.mask.Some? && !DegenerateCrop(CropLine(f.mask.value, f.width), f.height) ==>
            var plan := SplitPlan(Some(Size(f.width, f.height)), exZone, CropLine(f.mask.value, f.width), h, w);
            && (plan.Err? ==> out == Fail(SplitFailed(plan.error)))
            && (plan.Ok? && |oldHists| != 0 && |plan.value| != |oldHists| ==>
                  out == Fail(TileCountMismatch(|plan.value|, |oldHists|))))
  {
  }

  /** With a baseline of the right length the filter triggers exactly when
      some tile's histogram moved by at least the threshold, and fails
      exactly when some pair of histograms has different bucket counts. */
  lemma TriggerIsOrOverTiles(oldHists: seq<Histogram>, f: Frame, exZone: Option<Rect>, thresh: real, h: int, w: int)
    requires WellFormed(f) && f.mask.Some?
    requires !DegenerateCrop(CropLine(f.mask.value, f.width), f.height)
    requires SplitPlan(Some(Size(f.width, f.height)), exZone, CropLine(f.mask.value, f.width), h, w).Ok?
    requires |oldHists| == |SplitPlan(Some(Size(f.width, f.height)), exZone, CropLine(f.mask.value, f.width), h, w).value| > 0
    ensures var cropY := CropLine(f.mask.value, f.width);
      var newHists := TileHists(f, cropY, SplitPlan(Some(Size(f.width, f.height)), exZone, cropY, h, w).value);
      var out := ChangeFilter(oldHists, f, exZone, thresh, h, w);
      && (out.err.None? <==> SameBuckets(oldHists, newHists))
      && (out.err.None? ==>
            out.hists == newHists
            && (out.triggered <==> exists i :: 0 <= i < |oldHists| && HistogramTrigger(oldHists[i], newHists[i], thresh)))
  {
    var cropY := CropLine(f.mask.value, f.width);
    var newHists := TileHists(f, cropY, SplitPlan(Some(Size(f.width, f.height)), exZone, cropY, h, w).value);
    CompareOkIffSameBuckets(oldHists, newHists, thresh);
    if SameBuckets(oldHists, newHists) {
      CompareIsOrOverTiles(oldHists, newHists, thresh);
    }
  }

  /** The baseline the filter returns holds only 32-bucket histograms. */
  lemma BaselineIsGray(oldHists: seq<Histogram>, f: Frame, exZone: Option<Rect>, thresh: real, h: int, w: int)
    requires WellFormed(f)
    ensures forall hist :: hist in ChangeFilter(oldHists, f, exZone, thresh, h, w).hists ==> |hist.buckets| == GrayBuckets
  {
    var out := ChangeFilter(oldHists, f, exZone, thresh, h, w);
    forall hist | hist in out.hists
      ensures |hist.buckets| == GrayBuckets
    {
      var i :| 0 <= i < |out.hists| && out.hists[i] == hist;
      var cropY := CropLine(f.mask.value, f.width);
      var tiles := SplitPlan(Some(Size(f.width, f.height)), exZone, cropY, h, w).value;
      TileHistsAt(f, cropY, tiles, i);
      GrayHistShape(TilePixels(f.tileImage(cropY, tiles[i])));
    }
  }

  /** Against a baseline the filter itself produced, the bucket-count
      error cannot happen. */
  lemma NoBucketMismatchWithGrayBaseline(oldHists: seq<Histogram>, f: Frame, exZone: Option<Rect>, thresh: real, h: int, w: int)
    requires WellFormed(f)
    requires forall hist :: hist in oldHists ==> |hist.buckets| == GrayBuckets
    ensures !ChangeFilter(oldHists, f, exZone, thresh, h, w).err.Some?
      || !ChangeFilter(oldHists, f, exZone, thresh, h, w).err.value.BucketCountMismatch?
  {
    var out := ChangeFilter(oldHists, f, exZone, thresh, h, w);
    if f.mask.Some? && !DegenerateCrop(CropLine(f.mask.value, f.width), f.height) {
      var cropY := CropLine(f.mask.value, f.width);
      var plan := SplitPlan(Some(Size(f.width, f.height)), exZone, cropY, h, w);
      if plan.Ok? && |oldHists| != 0 && |plan.value| == |oldHists| {
        var newHists := TileHists(f, cropY, plan.value);
        forall i | 0 <= i < |oldHists|
          ensures |oldHists[i].buckets| == |newHists[i].buckets|
        {
          TileHistsAt(f, cropY, plan.value, i);
          GrayHistShape(TilePixels(f.tileImage(cropY, plan.value[i])));
        }
        CompareOkIffSameBuckets(oldHists, newHists, thresh);
      }
    }
  }

  /** The same frame twice: after the first frame sets the baseline, the
      second produces the same histograms and, for a positive threshold,
      no trigger and no error. */
  lemma SameFrameTwice(f: Frame, exZone: Option<Rect>, thresh: real, h: int, w: int)
    requires WellFormed(f) && thresh > 0.0
    requires ChangeFilter([], f, exZone, thresh, h, w).err.None?
    requires |ChangeFilter([], f, exZone, thresh, h, w).hists| > 0
    ensures var first := ChangeFilter([], f, exZone, thresh, h, w);
      ChangeFilter(first.hists, f, exZone, thresh, h, w) == FilterOutcome(false, first.hists, None)
  {
    var first := ChangeFilter([], f, exZone, thresh, h, w);
    var hs := first.hists;
    CompareOkIffSameBuckets(hs, hs, thresh);
    CompareIsOrOverTiles(hs, hs, thresh);
    forall i | 0 <= i < |hs|
      ensures !HistogramTrigger(hs[i], hs[i], thresh)
    {
      UnchangedNeverTriggers(hs[i], thresh);
    }
  }
}
