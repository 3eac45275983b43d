/** mlFilter (oceanprefilter/ml_filtering.go): the optional check of a
    second vision service's detections against per-label minimum
    confidences. */
module MlFiltering {
  import opened Wrappers

  /** One detection of the configured detector: its label (`name`) and its score. */
  datatype Detection = Detection(name: string, score: real)

  /** What the detector's Detections call returned: the detections (None
      for a nil slice) and whether it also returned an error. */
  datatype DetectorReply = DetectorReply(dets: Option<seq<Detection>>, failed: bool)

  /** A detection the label filter accepts: its label is configured and its
      score reaches that label's minimum confidence. */
  predicate Accepted(d: Detection, chosenLabels: map<string, real>) {
    d.name in chosenLabels && d.score >= chosenLabels[d.name]
  }

  /** The search loop of mlFilter: scans the detections in order and stops
      at the first accepted one. */
  function AnyAccepted(dets: seq<Detection>, chosenLabels: map<string, real>): (r: bool)
    ensures r <==> exists i :: 0 <= i < |dets| && Accepted(dets[i], chosenLabels)
  {
    if |dets| == 0 then false
    else if Accepted(dets[0], chosenLabels) then true
    else
      assert forall i :: 1 <= i < |dets| ==> dets[i] == dets[1..][i - 1];
      AnyAccepted(dets[1..], chosenLabels)
  }

  /** mlFilter: `detector` is None when no detector is configured, else the
      reply of its Detections call; `chosenLabels` is None for a nil map.
      The error mlFilter returns is always nil, so only the boolean is
      modelled. */
  function MlFilter(detector: Option<DetectorReply>, chosenLabels: Option<map<string, real>>): (r: bool)
    ensures detector.None? ==> !r
    ensures detector.Some? && detector.value.dets.None? ==> !r
    ensures chosenLabels.None? ==>
      (r <==> detector.Some? && detector.value.dets.Some? && |detector.value.dets.value| != 0)
    ensures chosenLabels.Some? ==>
      (r <==> detector.Some? && detector.value.dets.Some?
              && exists i :: 0 <= i < |detector.value.dets.value| && Accepted(detector.value.dets.value[i], chosenLabels.value))
  {
    if detector.None? then false
    else
      var dets := detector.value.dets;
      if dets.None? then false
      else if chosenLabels.None? then |dets.value| != 0
      else AnyAccepted(dets.value, chosenLabels.value)
  }

  /** A configured but empty label filter rejects every detection, while a
      nil filter accepts any non-empty list. */
  lemma EmptyFilterRejects(dets: seq<Detection>, failed: bool)
    requires |dets| > 0
    ensures !MlFilter(Some(DetectorReply(Some(dets), failed)), Some(map[]))
    ensures MlFilter(Some(DetectorReply(Some(dets), failed)), None)
  {
  }

  /** An error from the detector is ignored: only the detections count. */
  lemma DetectorErrorIgnored(dets: Option<seq<Detection>>, chosenLabels: Option<map<string, real>>)
    ensures MlFilter(Some(DetectorReply(dets, true)), chosenLabels) == MlFilter(Some(DetectorReply(dets, false)), chosenLabels)
  {
  }

  /** The decision does not depend on the order of the detections. */
  lemma OrderIrrelevant(d1: seq<Detection>, d2: seq<Detection>, failed: bool, chosenLabels: Option<map<string, real>>)
    requires multiset(d1) == multiset(d2)
    ensures MlFilter(Some(DetectorReply(Some(d1), failed)), chosenLabels) == MlFilter(Some(DetectorReply(Some(d2), failed)), chosenLabels)
  {
    assert |d1| == |multiset(d1)| == |d2|;
    if chosenLabels.Some? {
      var m := chosenLabels.value;
      if AnyAccepted(d1, m) {
        AcceptedMoves(d1, d2, m);
      }
      if AnyAccepted(d2, m) {
        AcceptedMoves(d2, d1, m);
      }
    }
  }

  /** An accepted detection of one ordering is present in any other. */
  lemma AcceptedMoves(d1: seq<Detection>, d2: seq<Detection>, m: map<string, real>)
    requires multiset(d1) == multiset(d2) && AnyAccepted(d1, m)
    ensures AnyAccepted(d2, m)
  {
    var i :| 0 <= i < |d1| && Accepted(d1[i], m);
    assert d1[i] in multiset(d1);
    assert d1[i] in d2;
    var j :| 0 <= j < |d2| && d2[j] == d1[i];
  }
}
