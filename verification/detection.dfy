/** Turning raw detector rows into `[ltwh, confidence, class_id]` results and
    splitting them by confidence, as `get_detected_object` and the loop in
    `object_detection` (`temporal_consistency/object_detection_tracking.py`) do.
    The detector call that produces the rows is not part of this model. */
module Detection {
  import opened Geometry

  /** One result `[ltwh, confidence, class_id]`. */
  datatype Detection = Detection(ltwh: Box, confidence: real, classId: int)

  /** Python's `int()` on a float: truncation toward zero. */
  function Trunc(x: real): (n: int)
    ensures x >= 0.0 ==> 0 <= n && n as real <= x < n as real + 1.0
    ensures x < 0.0 ==> n <= 0 && n as real - 1.0 < x <= n as real
  {
    if x >= 0.0 then x.Floor else -((-x).Floor)
  }

  /** A detector row `[x_min, y_min, x_max, y_max, confidence, class, ...]`. */
  predicate IsRow(data: seq<real>)
  {
    |data| >= 6
  }

  /** `get_detected_object`: truncates the corners, turns them into
      `[left, top, width, height]`, and keeps confidence and class. It filters
      nothing: the threshold is accepted and ignored. */
  function GetDetectedObject(data: seq<real>, confidenceThreshold: real): (res: Detection)
    requires IsRow(data)
    ensures LtwhToLtrb(res.ltwh) == [Trunc(data[0]), Trunc(data[1]), Trunc(data[2]), Trunc(data[3])]
    ensures res.confidence == data[4]
    ensures res.classId == Trunc(data[5])
  {
    var xMin, yMin, xMax, yMax := Trunc(data[0]), Trunc(data[1]), Trunc(data[2]), Trunc(data[3]);
    Detection([xMin, yMin, xMax - xMin, yMax - yMin], data[4], Trunc(data[5]))
  }

  /** The threshold has no influence on what `get_detected_object` returns. */
  lemma GetDetectedObjectIgnoresThreshold(data: seq<real>, t1: real, t2: real)
    requires IsRow(data)
    ensures GetDetectedObject(data, t1) == GetDetectedObject(data, t2)
  {
  }

  /** The list comprehension `all_results` over the detector rows. */
  function AllResults(rows: seq<seq<real>>, confidenceThreshold: real): (all: seq<Detection>)
    requires forall i :: 0 <= i < |rows| ==> IsRow(rows[i])
    ensures |all| == |rows|
    ensures forall i :: 0 <= i < |rows| ==> all[i] == GetDetectedObject(rows[i], confidenceThreshold)
  {
    seq(|rows|, i requires 0 <= i < |rows| => GetDetectedObject(rows[i], confidenceThreshold))
  }

  /** The results kept by the `>= threshold` rule, in input order. */
  function Confident(s: seq<Detection>, threshold: real): seq<Detection>
    decreases |s|
  {
    if s == [] then []
    else
      var last := s[|s| - 1];
      Confident(s[..|s| - 1], threshold) + (if last.confidence >= threshold then [last] else [])
  }

  /** The results set aside as low-confidence, in input order. */
  function LowConfidence(s: seq<Detection>, threshold: real): seq<Detection>
    decreases |s|
  {
    if s == [] then []
    else
      var last := s[|s| - 1];
      LowConfidence(s[..|s| - 1], threshold) + (if last.confidence >= threshold then [] else [last])
  }

  /** The two lists partition the input: every result lands in exactly one of
      them, on the side its confidence calls for, and none is lost or repeated. */
  lemma {:induction false} SplitIsPartition(s: seq<Detection>, threshold: real)
    ensures |Confident(s, threshold)| + |LowConfidence(s, threshold)| == |s|
    ensures multiset(Confident(s, threshold)) + multiset(LowConfidence(s, threshold)) == multiset(s)
    ensures forall d :: d in Confident(s, threshold) ==> d in s && d.confidence >= threshold
    ensures forall d :: d in LowConfidence(s, threshold) ==> d in s && d.confidence < threshold
    decreases |s|
  {
    if s != [] {
      var init := s[..|s| - 1];
      SplitIsPartition(init, threshold);
      assert s == init + [s[|s| - 1]];
    }
  }

  /** Splitting a concatenation splits each part in turn: the relative order of
      the input is kept within each output list. */
  lemma {:induction false} SplitPreservesOrder(s1: seq<Detection>, s2: seq<Detection>, threshold: real)
    ensures Confident(s1 + s2, threshold) == Confident(s1, threshold) + Confident(s2, threshold)
    ensures LowConfidence(s1 + s2, threshold) == LowConfidence(s1, threshold) + LowConfidence(s2, threshold)
    decreases |s2|
  {
    if s2 == [] {
      assert s1 + s2 == s1;
    } else {
      var init := s2[..|s2| - 1];
      SplitPreservesOrder(s1, init, threshold);
      assert (s1 + s2)[..|s1 + s2| - 1] == s1 + init;
    }
  }

  /** The part of `object_detection` after the detector call: builds
      `all_results` and splits it with the `>= confidence_threshold` rule into
      `results` and `low_confidence_results`. */
  method ObjectDetection(rows: seq<seq<real>>, confidenceThreshold: real)
    returns (results: seq<Detection>, lowConfidenceResults: seq<Detection>)
    requires forall i :: 0 <= i < |rows| ==> IsRow(rows[i])
    ensures results == Confident(AllResults(rows, confidenceThreshold), confidenceThreshold)
    ensures lowConfidenceResults == LowConfidence(AllResults(rows, confidenceThreshold), confidenceThreshold)
    ensures |results| + |lowConfidenceResults| == |rows|
    ensures forall d :: d in results ==> d.confidence >= confidenceThreshold
    ensures forall d :: d in lowConfidenceResults ==> d.confidence < confidenceThreshold
  {
    var allResults := AllResults(rows, confidenceThreshold);
    results, lowConfidenceResults := [], [];
    var i := 0;
    while i < |allResults|
      invariant 0 <= i <= |allResults|
      invariant results == Confident(allResults[..i], confidenceThreshold)
      invariant lowConfidenceResults == LowConfidence(allResults[..i], confidenceThreshold)
    {
      var res := allResults[i];
      assert allResults[..i + 1][..i] == allResults[..i];
      if res.confidence >= confidenceThreshold {
        results := results + [res];
      } else {
        lowConfidenceResults := lowConfidenceResults + [res];
      }
      i := i + 1;
    }
    assert allResults[..i] == allResults;
    SplitIsPartition(allResults, confidenceThreshold);
  }
}
