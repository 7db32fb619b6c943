/** `TemporalAnomalyDetector` of `temporal_consistency/frame_anomaly_detection.py`:
    four checks run over the history (frame id -> prediction) of every tracked
    object, each appending findings to the detector's anomaly record. */
module AnomalyDetection {
  import opened Common
  import opened Geometry
  import opened Keys
  import opened Tracking

  /** `MIN_IOU_THRESH`. */
  const MIN_IOU_THRESH: real := 0.5

  /** One object's history: frame id -> prediction. */
  type History = map<int, Prediction>

  /** A finding. The source logs a sentence; the model keeps what the sentence
      reports: the set of class names, the number of missing frames, nothing
      more for a single-frame object, and the IoU with its two frame ids. */
  datatype Finding =
    | ClassInconsistent(classes: set<Option<string>>)
    | MissingInFrames(count: int)
    | SingleFrameOccurrence
    | LowIou(iou: real, frameI: int, frameJ: int)

  /** The record: object id -> findings in the order they were appended. */
  type Anomalies = map<TrackId, seq<Finding>>

  /** `self.anomalies[object_id].extend(findings)` on a `defaultdict(list)`:
      the key appears only once something is appended to it. */
  function Record(anomalies: Anomalies, objectId: TrackId, findings: seq<Finding>): Anomalies
  {
    if findings == [] then anomalies
    else anomalies[objectId := Listed(anomalies, objectId) + findings]
  }

  /** The findings recorded so far for an object, empty when it has none. */
  function Listed(anomalies: Anomalies, objectId: TrackId): seq<Finding>
  {
    if objectId in anomalies then anomalies[objectId] else []
  }

  /** A check only appends to the list of the object it inspects: no other
      object's list changes, and what was recorded before is kept as a prefix. */
  lemma RecordOnlyAppends(anomalies: Anomalies, objectId: TrackId, findings: seq<Finding>)
    ensures var r := Record(anomalies, objectId, findings);
      && (forall other :: other != objectId ==> (other in r <==> other in anomalies))
      && (forall other :: other != objectId && other in anomalies ==> r[other] == anomalies[other])
      && (objectId in r <==> objectId in anomalies || findings != [])
      && (objectId in r ==> r[objectId] == Listed(anomalies, objectId) + findings)
  {
  }

  lemma RecordTwice(anomalies: Anomalies, objectId: TrackId, first: seq<Finding>, second: seq<Finding>)
    ensures Record(Record(anomalies, objectId, first), objectId, second) == Record(anomalies, objectId, first + second)
  {
    if first == [] {
      assert first + second == second;
    } else if second == [] {
      assert first + second == first;
    } else {
      var old0 := Listed(anomalies, objectId);
      assert old0 + first + second == old0 + (first + second);
    }
  }

  // ---------------------------------------------------------------------------
  // The four checks as predicates on a history

  /** `set(v.class_name for v in track_info.values())`; a missing name (`None`)
      counts as a value of its own. */
  function ClassSet(h: History): set<Option<string>>
  {
    set f | f in h :: h[f].className
  }

  /** The class set holds the class name of every observation and nothing
      else. */
  lemma ClassSetMembers(h: History)
    ensures forall f :: f in h ==> h[f].className in ClassSet(h)
    ensures forall c :: c in ClassSet(h) ==> exists f :: f in h && h[f].className == c
  {
  }

  /** `is_class_inconsistent` fires: more than one class name. */
  predicate ClassCheckFires(h: History)
  {
    |ClassSet(h)| > 1
  }

  /** The class check fires exactly when two observations of the object carry
      different class names. */
  lemma {:induction false} ClassCheckFiresIff(h: History)
    ensures ClassCheckFires(h) <==> exists f, g :: f in h && g in h && h[f].className != h[g].className
  {
    var classes := ClassSet(h);
    ClassSetMembers(h);
    if ClassCheckFires(h) {
      var c := Pick(classes);
      assert |classes - {c}| == |classes| - 1;
      var d := Pick(classes - {c});
      var f :| f in h && h[f].className == c;
      var g :| g in h && h[g].className == d;
      assert h[f].className != h[g].className;
    }
    if f, g :| f in h && g in h && h[f].className != h[g].className {
      assert {h[f].className, h[g].className} <= classes;
      SubsetSize({h[f].className, h[g].className}, classes);
    }
  }

  /** `is_object_missing_in_frames` fires: the history holds fewer entries than
      `max - min + 1`. */
  predicate MissingCheckFires(h: History)
    requires h != map[]
  {
    |h| != ExpectedSize(h.Keys)
  }

  /** What the missing check logs: `expected_size - size`. */
  function MissingCount(h: History): int
    requires h != map[]
  {
    ExpectedSize(h.Keys) - |h|
  }

  /** The missing check fires exactly when a frame id between the first and the
      last observation is absent, and the count it logs is then the number of
      such absent ids (never negative, positive exactly when it fires). */
  lemma {:induction false} MissingCheckFiresIff(h: History)
    requires h != map[]
    ensures MissingCheckFires(h) <==> exists f :: Min(h.Keys) <= f <= Max(h.Keys) && f !in h
    ensures MissingCount(h) == |Range(Min(h.Keys), Max(h.Keys)) - h.Keys|
    ensures MissingCheckFires(h) <==> MissingCount(h) > 0
  {
    assert |h| == |h.Keys|;
    GapIffShort(h.Keys);
    GapCount(h.Keys);
  }

  /** `appears_only_in_single_frame` fires: exactly one entry. */
  predicate SingleCheckFires(h: History)
  {
    |h| == 1
  }

  /** A single-frame object never fires the missing check. */
  lemma {:induction false} SingleNeverMissing(h: History)
    requires SingleCheckFires(h)
    ensures h != map[] && !MissingCheckFires(h)
  {
    assert |h.Keys| == 1;
    var f := Pick(h.Keys);
    assert h.Keys == {f} by {
      forall g | g in h ensures g == f {
        if g != f {
          assert {f, g} <= h.Keys;
          SubsetSize({f, g}, h.Keys);
          assert false;
        }
      }
    }
  }

  /** The IoU of the pair of consecutive frame ids at positions `i`, `i + 1`. */
  function PairIou(h: History, keys: seq<int>, i: int): real
    requires forall k :: 0 <= k < |keys| ==> keys[k] in h
    requires 0 <= i && i + 1 < |keys|
  {
    Iou(h[keys[i]].ltrb, h[keys[i + 1]].ltrb)
  }

  /** The findings of `has_low_iou` for the first `n` consecutive pairs of
      `keys`: one per pair whose IoU is below the threshold, in pair order. */
  function LowIouFindingsUpTo(h: History, keys: seq<int>, n: nat): seq<Finding>
    requires forall k :: 0 <= k < |keys| ==> keys[k] in h
    requires n == 0 || n < |keys|
    decreases n
  {
    if n == 0 then []
    else
      var i := n - 1;
      var iou := PairIou(h, keys, i);
      LowIouFindingsUpTo(h, keys, i) + (if iou < MIN_IOU_THRESH then [LowIou(iou, keys[i], keys[i + 1])] else [])
  }

  /** The number of consecutive pairs of a sorted key list. */
  function PairCount(keys: seq<int>): (n: nat)
    ensures n == 0 || n < |keys|
  {
    if |keys| == 0 then 0 else |keys| - 1
  }

  /** All findings of `has_low_iou`: over the consecutive pairs of the sorted
      frame ids. */
  function LowIouFindings(h: History): seq<Finding>
  {
    var keys := Sorted(h.Keys);
    LowIouFindingsUpTo(h, keys, PairCount(keys))
  }

  /** The first `n` pairs produce at most `n` findings; some finding is produced
      exactly when some pair among them has IoU below the threshold, and every
      finding names such a pair, earlier frame first. */
  lemma {:induction false} LowIouFindingsUpToSpec(h: History, keys: seq<int>, n: nat)
    requires forall k :: 0 <= k < |keys| ==> keys[k] in h
    requires n == 0 || n < |keys|
    ensures |LowIouFindingsUpTo(h, keys, n)| <= n
    ensures LowIouFindingsUpTo(h, keys, n) != [] <==> exists i :: 0 <= i < n && PairIou(h, keys, i) < MIN_IOU_THRESH
    ensures forall x :: x in LowIouFindingsUpTo(h, keys, n) ==>
      exists i :: 0 <= i < n && x == LowIou(PairIou(h, keys, i), keys[i], keys[i + 1]) && x.iou < MIN_IOU_THRESH
    decreases n
  {
    if n > 0 {
      LowIouFindingsUpToSpec(h, keys, n - 1);
    }
  }

  /** Low-IoU findings in strictly ascending order of their earlier frame. */
  predicate InFrameOrder(fs: seq<Finding>)
  {
    forall a, b :: 0 <= a < b < |fs| ==> fs[a].LowIou? && fs[b].LowIou? && fs[a].frameI < fs[b].frameI
  }

  /** Every pair among the first `n` whose IoU is below the threshold has its
      finding among theirs: no failing pair is skipped. */
  lemma {:induction false} LowIouFindingsUpToComplete(h: History, keys: seq<int>, n: nat)
    requires forall k :: 0 <= k < |keys| ==> keys[k] in h
    requires n == 0 || n < |keys|
    ensures forall i :: 0 <= i < n && PairIou(h, keys, i) < MIN_IOU_THRESH ==>
      LowIou(PairIou(h, keys, i), keys[i], keys[i + 1]) in LowIouFindingsUpTo(h, keys, n)
    decreases n
  {
    if n > 0 {
      LowIouFindingsUpToComplete(h, keys, n - 1);
    }
  }

  /** Over an ascending key list the findings come in strictly ascending order
      of their earlier frame: each pair is reported once, in frame order. */
  lemma {:induction false} LowIouFindingsUpToOrdered(h: History, keys: seq<int>, n: nat)
    requires forall k :: 0 <= k < |keys| ==> keys[k] in h
    requires StrictlyIncreasing(keys)
    requires n == 0 || n < |keys|
    ensures InFrameOrder(LowIouFindingsUpTo(h, keys, n))
    decreases n
  {
    if n > 0 {
      LowIouFindingsUpToOrdered(h, keys, n - 1);
      LowIouFindingsUpToSpec(h, keys, n - 1);
      var prev := LowIouFindingsUpTo(h, keys, n - 1);
      forall x | x in prev
        ensures x.LowIou? && x.frameI < keys[n - 1]
      {
        var i :| 0 <= i < n - 1 && x == LowIou(PairIou(h, keys, i), keys[i], keys[i + 1]) && x.iou < MIN_IOU_THRESH;
      }
      var fs := LowIouFindingsUpTo(h, keys, n);
      forall a, b | 0 <= a < b < |fs|
        ensures fs[a].LowIou? && fs[b].LowIou? && fs[a].frameI < fs[b].frameI
      {
        if b >= |prev| {
          assert fs[a] == prev[a] && prev[a] in prev;
        }
      }
    }
  }

  /** `g` directly follows `f` among the frame ids of `h`. */
  ghost predicate Consecutive(h: History, f: int, g: int)
  {
    f in h && g in h && f < g && forall k :: f < k < g ==> k !in h
  }

  /** Two consecutive observations whose boxes overlap too little. */
  ghost predicate LowPair(h: History, f: int, g: int)
  {
    Consecutive(h, f, g) && Iou(h[f].ltrb, h[g].ltrb) < MIN_IOU_THRESH
  }

  /** `keys` lists the frame ids of `h` in ascending order. */
  ghost predicate SortedKeys(h: History, keys: seq<int>)
  {
    StrictlyIncreasing(keys) && forall x :: x in keys <==> x in h
  }

  /** Neighbours in the sorted key list are consecutive observations. */
  lemma NeighboursAreConsecutive(h: History, keys: seq<int>, i: int)
    requires SortedKeys(h, keys)
    requires 0 <= i && i + 1 < |keys|
    ensures Consecutive(h, keys[i], keys[i + 1])
  {
    forall k | keys[i] < k < keys[i + 1]
      ensures k !in h
    {
      forall j | 0 <= j < |keys|
        ensures keys[j] != k
      {
        if j <= i {
          assert keys[j] <= keys[i];
        } else {
          assert keys[i + 1] <= keys[j];
        }
      }
    }
  }

  /** Consecutive observations are neighbours in the sorted key list. */
  lemma ConsecutiveAreNeighbours(h: History, keys: seq<int>, f: int, g: int) returns (i: nat)
    requires SortedKeys(h, keys)
    requires Consecutive(h, f, g)
    ensures i + 1 < |keys| && keys[i] == f && keys[i + 1] == g
  {
    i := IndexOf(keys, f);
    var j := IndexOf(keys, g);
    assert i < j;
    assert keys[i + 1] in h;
    assert g <= keys[i + 1];
    assert j <= i + 1;
  }

  function IndexOf(keys: seq<int>, x: int): (i: nat)
    requires x in keys
    ensures i < |keys| && keys[i] == x
  {
    if keys[0] == x then 0 else 1 + IndexOf(keys[1..], x)
  }

  /** The sorted frame ids are frame ids of the history. */
  lemma SortedKeysIn(h: History)
    ensures forall k :: 0 <= k < |Sorted(h.Keys)| ==> Sorted(h.Keys)[k] in h
  {
    var keys := Sorted(h.Keys);
    forall k | 0 <= k < |keys|
      ensures keys[k] in h
    {
      assert keys[k] in keys;
    }
  }

  /** The pair walk over any ascending key list of `h`: at most `len - 1`
      findings, some finding exactly when two consecutive observations overlap
      too little, and every finding names such a pair with its IoU. */
  lemma {:induction false} LowIouFindingsOver(h: History, keys: seq<int>)
    requires SortedKeys(h, keys)
    ensures forall k :: 0 <= k < |keys| ==> keys[k] in h
    ensures |LowIouFindingsUpTo(h, keys, PairCount(keys))| <= if |keys| == 0 then 0 else |keys| - 1
    ensures LowIouFindingsUpTo(h, keys, PairCount(keys)) != [] <==> exists f, g :: LowPair(h, f, g)
    ensures forall x :: x in LowIouFindingsUpTo(h, keys, PairCount(keys)) ==>
      x.LowIou? && LowPair(h, x.frameI, x.frameJ) && x.iou == Iou(h[x.frameI].ltrb, h[x.frameJ].ltrb)
    ensures forall f, g :: LowPair(h, f, g) ==>
      LowIou(Iou(h[f].ltrb, h[g].ltrb), f, g) in LowIouFindingsUpTo(h, keys, PairCount(keys))
    ensures InFrameOrder(LowIouFindingsUpTo(h, keys, PairCount(keys)))
  {
    forall k | 0 <= k < |keys|
      ensures keys[k] in h
    {
      assert keys[k] in keys;
    }
    var n := PairCount(keys);
    LowIouFindingsUpToSpec(h, keys, n);
    LowIouFindingsOverComplete(h, keys);
    var fs := LowIouFindingsUpTo(h, keys, n);
    forall x | x in fs
      ensures x.LowIou? && LowPair(h, x.frameI, x.frameJ) && x.iou == Iou(h[x.frameI].ltrb, h[x.frameJ].ltrb)
    {
      var i :| 0 <= i < n && x == LowIou(PairIou(h, keys, i), keys[i], keys[i + 1]) && x.iou < MIN_IOU_THRESH;
      NeighboursAreConsecutive(h, keys, i);
    }
    if fs != [] {
      assert fs[0] in fs;
    }
    if f, g :| LowPair(h, f, g) {
      assert LowIou(Iou(h[f].ltrb, h[g].ltrb), f, g) in fs;
    }
  }

  /** The pair walk over an ascending key list of `h` reports every low
      consecutive pair, and reports them in frame order. */
  lemma {:induction false} LowIouFindingsOverComplete(h: History, keys: seq<int>)
    requires SortedKeys(h, keys)
    ensures forall k :: 0 <= k < |keys| ==> keys[k] in h
    ensures forall f, g :: LowPair(h, f, g) ==>
      LowIou(Iou(h[f].ltrb, h[g].ltrb), f, g) in LowIouFindingsUpTo(h, keys, PairCount(keys))
    ensures InFrameOrder(LowIouFindingsUpTo(h, keys, PairCount(keys)))
  {
    forall k | 0 <= k < |keys|
      ensures keys[k] in h
    {
      assert keys[k] in keys;
    }
    var n := PairCount(keys);
    LowIouFindingsUpToComplete(h, keys, n);
    LowIouFindingsUpToOrdered(h, keys, n);
    var fs := LowIouFindingsUpTo(h, keys, n);
    forall f, g | LowPair(h, f, g)
      ensures LowIou(Iou(h[f].ltrb, h[g].ltrb), f, g) in fs
    {
      var i := ConsecutiveAreNeighbours(h, keys, f, g);
      assert PairIou(h, keys, i) == Iou(h[f].ltrb, h[g].ltrb);
    }
  }

  /** Over a whole history: the same, for the ascending order `sorted` gives.
      The findings are exactly one per low consecutive pair, in frame order. */
  lemma {:induction false} LowIouFindingsSpec(h: History)
    ensures |LowIouFindings(h)| <= if |h| == 0 then 0 else |h| - 1
    ensures LowIouFindings(h) != [] <==> exists f, g :: LowPair(h, f, g)
    ensures forall x :: x in LowIouFindings(h) ==>
      x.LowIou? && LowPair(h, x.frameI, x.frameJ) && x.iou == Iou(h[x.frameI].ltrb, h[x.frameJ].ltrb)
    ensures forall f, g :: LowPair(h, f, g) ==> LowIou(Iou(h[f].ltrb, h[g].ltrb), f, g) in LowIouFindings(h)
    ensures InFrameOrder(LowIouFindings(h))
  {
    var keys := Sorted(h.Keys);
    assert |h| == |h.Keys|;
    assert SortedKeys(h, keys);
    LowIouFindingsOver(h, keys);
  }

  /** Comparing areas decides the IoU check exactly: with a positive union a
      pair is low exactly when twice its intersection is below its union. At a
      ratio of exactly 1/2 EPS has been rounded away, so the pair is not low. */
  lemma {:induction false} IouThresholdByAreas(a: Box, b: Box)
    ensures 2 * InterArea(a, b) < UnionArea(a, b) ==> Iou(a, b) < MIN_IOU_THRESH
    ensures 0 < UnionArea(a, b) <= 2 * InterArea(a, b) ==> Iou(a, b) >= MIN_IOU_THRESH
  {
    var i, u := InterArea(a, b), UnionArea(a, b);
    var d := RoundedDenominator(u);
    if 2 * i < u {
      if u >= 2 {
        HalfBelow(i as real, d);
      } else {
        assert i == 0;
      }
    } else if 0 < u {
      assert i >= 1;
      assert 2.0 * (i as real) >= d;
      HalfAbove(i as real, d);
    }
  }

  lemma HalfBelow(i: real, d: real)
    requires d > 0.0 && 2.0 * i < d
    ensures i / d < 0.5
  {
  }

  lemma HalfAbove(i: real, d: real)
    requires d > 0.0 && 2.0 * i >= d
    ensures i / d >= 0.5
  {
  }

  // ---------------------------------------------------------------------------
  // One object

  /** The findings `inspect_object_for_anomalies` appends. The checks are
      joined by a short-circuiting `or`: once one fires, the later ones do not
      run and append nothing. */
  function InspectFindings(h: History): seq<Finding>
    requires h != map[]
  {
    if ClassCheckFires(h) then [ClassInconsistent(ClassSet(h))]
    else if MissingCheckFires(h) then [MissingInFrames(MissingCount(h))]
    else if SingleCheckFires(h) then [SingleFrameOccurrence]
    else LowIouFindings(h)
  }

  /** The value `inspect_object_for_anomalies` returns: the `or` of the four
      checks. */
  predicate Anomalous(h: History)
    requires h != map[]
  {
    ClassCheckFires(h) || MissingCheckFires(h) || SingleCheckFires(h) || LowIouFindings(h) != []
  }

  /** An object is reported anomalous exactly when something was recorded for
      it, and the record holds at most `len - 1` findings (one when one of the
      first three checks fires). */
  lemma {:induction false} InspectFindingsSpec(h: History)
    requires h != map[]
    ensures Anomalous(h) <==> InspectFindings(h) != []
    ensures |InspectFindings(h)| <= (if |h| == 1 then 1 else |h| - 1)
    ensures ClassCheckFires(h) || MissingCheckFires(h) || SingleCheckFires(h) ==> |InspectFindings(h)| == 1
  {
    LowIouFindingsSpec(h);
    if !ClassCheckFires(h) && !MissingCheckFires(h) && !SingleCheckFires(h) {
      assert |h| != 0;
    } else if ClassCheckFires(h) {
      assert |ClassSet(h)| <= |h| by {
        ClassSetSize(h);
      }
    } else if MissingCheckFires(h) {
      if |h| == 1 {
        SingleNeverMissing(h);
      }
    }
  }

  /** There are never more class names than observations. */
  lemma {:induction false} ClassSetSize(h: History)
    ensures |ClassSet(h)| <= |h|
    decreases |h|
  {
    if h != map[] {
      var f := Pick(h.Keys);
      var rest := h - {f};
      ClassSetSize(rest);
      ClassSetMembers(h);
      ClassSetMembers(rest);
      assert ClassSet(h) <= ClassSet(rest) + {h[f].className} by {
        forall c | c in ClassSet(h) ensures c in ClassSet(rest) + {h[f].className} {
          var g :| g in h && h[g].className == c;
          if g != f {
            assert g in rest;
          }
        }
      }
      SubsetSize(ClassSet(h), ClassSet(rest) + {h[f].className});
      assert |rest| == |h| - 1;
    }
  }

  /** An object with one class name, observed in every frame from its first to
      its last, at least twice, and whose consecutive boxes overlap by at least
      half of their (positive) union, gets no finding. */
  lemma {:induction false} CleanObjectHasNoFindings(h: History)
    requires |h| >= 2
    requires forall f, g :: f in h && g in h ==> h[f].className == h[g].className
    requires h != map[] && forall f :: Min(h.Keys) <= f <= Max(h.Keys) ==> f in h
    requires forall f :: f in h && f + 1 in h ==> 0 < UnionArea(h[f].ltrb, h[f + 1].ltrb) <= 2 * InterArea(h[f].ltrb, h[f + 1].ltrb)
    ensures InspectFindings(h) == []
  {
    assert !ClassCheckFires(h) by {
      ClassCheckFiresIff(h);
    }
    assert !MissingCheckFires(h) by {
      MissingCheckFiresIff(h);
    }
    OverlappingHistoryHasNoLowIou(h);
  }

  /** With no frame missing, the consecutive pairs are those of adjacent
      frames; when each of them overlaps by at least half of its (positive)
      union, no pair is below the threshold. */
  lemma {:induction false} OverlappingHistoryHasNoLowIou(h: History)
    requires h != map[] && forall f :: Min(h.Keys) <= f <= Max(h.Keys) ==> f in h
    requires forall f :: f in h && f + 1 in h ==> 0 < UnionArea(h[f].ltrb, h[f + 1].ltrb) <= 2 * InterArea(h[f].ltrb, h[f + 1].ltrb)
    ensures LowIouFindings(h) == []
  {
    LowIouFindingsSpec(h);
    forall f, g | Consecutive(h, f, g)
      ensures Iou(h[f].ltrb, h[g].ltrb) >= MIN_IOU_THRESH
    {
      assert f + 1 in h;
      assert g == f + 1;
      IouThresholdByAreas(h[f].ltrb, h[g].ltrb);
    }
  }

  /** Short-circuit: an object seen under two class names and missing from a
      frame gets the class finding only; the missing check does not run. */
  lemma ShortCircuitExample(p: Prediction, q: Prediction)
    requires p.className != q.className
    ensures 0 in map[0 := p, 2 := q]
    ensures InspectFindings(map[0 := p, 2 := q]) == [ClassInconsistent({p.className, q.className})]
  {
    var h := map[0 := p, 2 := q];
    assert ClassSet(h) == {p.className, q.className} by {
      ClassSetMembers(h);
      assert h[0].className == p.className && h[2].className == q.className;
    }
    assert |ClassSet(h)| == 2;
  }

  /** Frames 0, 1 and 3 under one class name: one frame is missing, and the
      count, not the frame id, is recorded. */
  lemma MissingExample(p: Prediction)
    ensures 0 in map[0 := p, 1 := p, 3 := p]
    ensures InspectFindings(map[0 := p, 1 := p, 3 := p]) == [MissingInFrames(1)]
  {
    var h := map[0 := p, 1 := p, 3 := p];
    assert !ClassCheckFires(h) by {
      ClassSetMembers(h);
      assert ClassSet(h) == {p.className};
    }
    assert MissingCheckFires(h) && MissingCount(h) == 1 by {
      assert h.Keys == {0, 1, 3};
      assert Min(h.Keys) == 0 && Max(h.Keys) == 3;
    }
  }

  /** An object seen in frame 5 only is reported as a single-frame
      occurrence. */
  lemma SingleExample(p: Prediction)
    ensures 5 in map[5 := p]
    ensures InspectFindings(map[5 := p]) == [SingleFrameOccurrence]
  {
    var h := map[5 := p];
    assert !ClassCheckFires(h) by {
      ClassSetMembers(h);
      assert ClassSet(h) == {p.className};
    }
    SingleNeverMissing(h);
  }

  /** Two 10 x 10 boxes sharing a 2 x 2 corner: an intersection of 4 against
      a union of 196 is well below the threshold. */
  lemma SmallOverlapIsLow()
    ensures InterArea([0, 0, 10, 10], [8, 8, 18, 18]) == 4
    ensures UnionArea([0, 0, 10, 10], [8, 8, 18, 18]) == 196
    ensures Iou([0, 0, 10, 10], [8, 8, 18, 18]) < MIN_IOU_THRESH
  {
    IouThresholdByAreas([0, 0, 10, 10], [8, 8, 18, 18]);
  }

  /** Boxes `[0, 0, 10, 10]` and `[8, 8, 18, 18]` in frames 0 and 1 share a
      2 x 2 square out of a union of 196: the pair is recorded as low IoU. */
  lemma LowIouExample(p: Prediction, q: Prediction)
    requires p.className == q.className
    requires p.ltrb == [0, 0, 10, 10] && q.ltrb == [8, 8, 18, 18]
    ensures 0 in map[0 := p, 1 := q]
    ensures InspectFindings(map[0 := p, 1 := q]) == [LowIou(Iou(p.ltrb, q.ltrb), 0, 1)]
  {
    var h := map[0 := p, 1 := q];
    assert !ClassCheckFires(h) by {
      ClassSetMembers(h);
      assert h[0].className == p.className && h[1].className == p.className;
      assert ClassSet(h) == {p.className};
    }
    assert !MissingCheckFires(h) && !SingleCheckFires(h) by {
      assert h.Keys == {0, 1};
      assert Min(h.Keys) == 0 && Max(h.Keys) == 1;
    }
    var keys := Sorted(h.Keys);
    assert keys == [0, 1] by {
      assert h.Keys == {0, 1};
      assert |keys| == 2 && keys[0] < keys[1];
      assert keys[0] in h.Keys && keys[1] in h.Keys;
    }
    assert PairIou(h, keys, 0) < MIN_IOU_THRESH by {
      assert PairIou(h, keys, 0) == Iou(p.ltrb, q.ltrb);
      SmallOverlapIsLow();
    }
    assert LowIouFindings(h) == [LowIou(Iou(p.ltrb, q.ltrb), 0, 1)] by {
      assert LowIouFindingsUpTo(h, keys, 1) == LowIouFindingsUpTo(h, keys, 0) + [LowIou(PairIou(h, keys, 0), 0, 1)];
    }
  }

  /** A 2 x 1 box covering half of the 2 x 2 box before it: intersection 2,
      union 4. The double `float(4 + EPS)` is 4, so the IoU is exactly 1/2,
      which is not below the threshold. */
  lemma HalfOverlapIsNotLow()
    ensures InterArea([0, 0, 2, 2], [0, 0, 2, 1]) == 2
    ensures UnionArea([0, 0, 2, 2], [0, 0, 2, 1]) == 4
    ensures Iou([0, 0, 2, 2], [0, 0, 2, 1]) == MIN_IOU_THRESH
  {
    assert InterArea([0, 0, 2, 2], [0, 0, 2, 1]) == 2;
    assert UnionArea([0, 0, 2, 2], [0, 0, 2, 1]) == 4;
  }

  /** Those two boxes in frames 0 and 1 under one class name: no finding. */
  lemma HalfOverlapExample(p: Prediction, q: Prediction)
    requires p.className == q.className
    requires p.ltrb == [0, 0, 2, 2] && q.ltrb == [0, 0, 2, 1]
    ensures 0 in map[0 := p, 1 := q]
    ensures InspectFindings(map[0 := p, 1 := q]) == []
  {
    var h := map[0 := p, 1 := q];
    assert !ClassCheckFires(h) by {
      ClassSetMembers(h);
      assert h[0].className == p.className && h[1].className == p.className;
      assert ClassSet(h) == {p.className};
    }
    assert !MissingCheckFires(h) && !SingleCheckFires(h) by {
      assert h.Keys == {0, 1};
      assert Min(h.Keys) == 0 && Max(h.Keys) == 1;
    }
    var keys := Sorted(h.Keys);
    assert keys == [0, 1] by {
      assert h.Keys == {0, 1};
      assert |keys| == 2 && keys[0] < keys[1];
      assert keys[0] in h.Keys && keys[1] in h.Keys;
    }
    assert PairIou(h, keys, 0) == MIN_IOU_THRESH by {
      assert PairIou(h, keys, 0) == Iou(p.ltrb, q.ltrb);
      HalfOverlapIsNotLow();
    }
    assert LowIouFindings(h) == [] by {
      assert LowIouFindingsUpTo(h, keys, 1) == LowIouFindingsUpTo(h, keys, 0);
    }
  }

  // ---------------------------------------------------------------------------
  // All objects

  /** What inspecting the objects `ids` of `objects` appends for each. */
  ghost function FindingsOf(objects: Objects, ids: set<TrackId>): (found: map<TrackId, seq<Finding>>)
    requires AllTracksNonEmpty(objects) && ids <= objects.Keys
    ensures found.Keys == ids
    ensures forall id :: id in found ==> found[id] == InspectFindings(objects[id])
  {
    map id | id in ids :: InspectFindings(objects[id])
  }

  /** `anomalies` with `found[id]` appended for every id, an id getting an
      entry only once something is appended to it. */
  ghost function Merge(anomalies: Anomalies, found: map<TrackId, seq<Finding>>): (r: Anomalies)
    ensures forall id :: id in r <==> id in anomalies || (id in found && found[id] != [])
  {
    map id | id in anomalies.Keys + found.Keys && (id in anomalies || found[id] != []) ::
      Listed(anomalies, id) + (if id in found then found[id] else [])
  }

  /** The record after the objects `ids` of `objects` have been inspected once
      each, starting from `anomalies`, in any order. */
  ghost function ScanOver(anomalies: Anomalies, objects: Objects, ids: set<TrackId>): Anomalies
    requires AllTracksNonEmpty(objects) && ids <= objects.Keys
  {
    Merge(anomalies, FindingsOf(objects, ids))
  }

  /** The record after every object of `objects` has been inspected once,
      starting from `anomalies`; the order of inspection does not matter. */
  ghost function ScanResult(anomalies: Anomalies, objects: Objects): Anomalies
    requires AllTracksNonEmpty(objects)
  {
    ScanOver(anomalies, objects, objects.Keys)
  }

  /** Inspecting no object leaves the record as it was. */
  lemma ScanOverNothing(anomalies: Anomalies, objects: Objects)
    requires AllTracksNonEmpty(objects)
    ensures ScanOver(anomalies, objects, {}) == anomalies
  {
    var r := ScanOver(anomalies, objects, {});
    assert r.Keys == anomalies.Keys;
    forall id | id in r
      ensures r[id] == anomalies[id]
    {
      assert r[id] == anomalies[id] + [];
    }
  }

  /** Appending the findings of one more id extends the merge by that id. */
  lemma MergeStep(anomalies: Anomalies, found: map<TrackId, seq<Finding>>, objectId: TrackId, findings: seq<Finding>)
    requires objectId !in found
    ensures Record(Merge(anomalies, found), objectId, findings) == Merge(anomalies, found[objectId := findings])
  {
    var m := Merge(anomalies, found);
    var left := Record(m, objectId, findings);
    var right := Merge(anomalies, found[objectId := findings]);
    assert left.Keys == right.Keys;
    forall id | id in left
      ensures left[id] == right[id]
    {
      if id != objectId {
        assert id in found ==> found[objectId := findings][id] == found[id];
      } else if findings != [] {
        if id in m {
          assert m[id] == Listed(anomalies, id) + [];
          assert Listed(m, id) == Listed(anomalies, id);
        } else {
          assert Listed(m, id) == Listed(anomalies, id);
        }
      }
    }
  }

  /** Inspecting one more object extends the scan by that object. */
  lemma {:induction false} ScanStep(anomalies: Anomalies, objects: Objects, ids: set<TrackId>, objectId: TrackId)
    requires AllTracksNonEmpty(objects) && ids <= objects.Keys
    requires objectId in objects && objectId !in ids
    ensures Record(ScanOver(anomalies, objects, ids), objectId, InspectFindings(objects[objectId]))
         == ScanOver(anomalies, objects, ids + {objectId})
  {
    assert FindingsOf(objects, ids + {objectId}) == FindingsOf(objects, ids)[objectId := InspectFindings(objects[objectId])];
    MergeStep(anomalies, FindingsOf(objects, ids), objectId, InspectFindings(objects[objectId]));
  }

  /** The record after inspecting the objects `ids` of `objects` one after
      the other, in that order. */
  ghost function ScanInOrder(anomalies: Anomalies, objects: Objects, ids: seq<TrackId>): Anomalies
    requires AllTracksNonEmpty(objects) && forall k :: 0 <= k < |ids| ==> ids[k] in objects
    decreases |ids|
  {
    if ids == [] then anomalies
    else
      var last := ids[|ids| - 1];
      Record(ScanInOrder(anomalies, objects, ids[..|ids| - 1]), last, InspectFindings(objects[last]))
  }

  /** The ids listed in `ids`. */
  ghost function IdSet(ids: seq<TrackId>): (s: set<TrackId>)
    ensures forall x :: x in s <==> x in ids
    decreases |ids|
  {
    if ids == [] then {} else IdSet(ids[..|ids| - 1]) + {ids[|ids| - 1]}
  }

  /** Inspecting objects one after the other, each at most once, gives the
      record of inspecting that set of objects. */
  lemma {:induction false} ScanInOrderIsScanOver(anomalies: Anomalies, objects: Objects, ids: seq<TrackId>)
    requires AllTracksNonEmpty(objects) && forall k :: 0 <= k < |ids| ==> ids[k] in objects
    requires Distinct(ids)
    ensures IdSet(ids) <= objects.Keys
    ensures ScanInOrder(anomalies, objects, ids) == ScanOver(anomalies, objects, IdSet(ids))
    decreases |ids|
  {
    if ids == [] {
      ScanOverNothing(anomalies, objects);
    } else {
      var init, last := ids[..|ids| - 1], ids[|ids| - 1];
      assert forall k :: 0 <= k < |init| ==> init[k] == ids[k];
      ScanInOrderIsScanOver(anomalies, objects, init);
      assert last !in IdSet(init);
      ScanStep(anomalies, objects, IdSet(init), last);
    }
  }

  /** The order in which `scan_for_anomalies` meets the objects does not
      matter: every enumeration of the objects, each once, gives the record
      of inspecting all of them. */
  lemma ScanOrderIrrelevant(anomalies: Anomalies, objects: Objects, ids: seq<TrackId>)
    requires AllTracksNonEmpty(objects)
    requires Distinct(ids)
    requires forall x :: x in ids <==> x in objects
    ensures ScanInOrder(anomalies, objects, ids) == ScanResult(anomalies, objects)
  {
    ScanInOrderIsScanOver(anomalies, objects, ids);
    assert IdSet(ids) == objects.Keys;
  }

  /** The keys of a dict in its iteration order; the model leaves that order
      open and promises only that every key comes exactly once. */
  method KeysInSomeOrder(objects: Objects) returns (ids: seq<TrackId>)
    ensures Distinct(ids)
    ensures forall x :: x in ids <==> x in objects
    ensures |ids| == |objects|
  {
    ids := [];
    var rest := objects.Keys;
    while rest != {}
      invariant rest <= objects.Keys
      invariant forall x :: x in objects <==> x in ids || x in rest
      invariant forall x :: x in ids ==> x !in rest
      invariant Distinct(ids)
      invariant |ids| + |rest| == |objects|
      decreases |rest|
    {
      var id :| id in rest;
      ids := ids + [id];
      rest := rest - {id};
    }
  }

  /** After a scan from an empty record, exactly the objects whose history is
      anomalous have an entry, holding the findings of inspecting them. */
  lemma ScanResultSpec(objects: Objects)
    requires AllTracksNonEmpty(objects)
    ensures ScanResult(map[], objects).Keys <= objects.Keys
    ensures forall id :: id in objects ==>
      (id in ScanResult(map[], objects) <==> Anomalous(objects[id]))
    ensures forall id :: id in ScanResult(map[], objects) ==>
      ScanResult(map[], objects)[id] == InspectFindings(objects[id])
  {
    forall id | id in objects
      ensures InspectFindings(objects[id]) != [] <==> Anomalous(objects[id])
    {
      InspectFindingsSpec(objects[id]);
    }
  }

  // ---------------------------------------------------------------------------
  // The detector

  /** `TemporalAnomalyDetector`: holds the collection it scans and the record
      of findings, and scans on construction. */
  class TemporalAnomalyDetector {
    const frameCollection: TrackedFrameCollection
    var anomalies: Anomalies

    /** `__init__`: an empty record, then `scan_for_anomalies`. */
    constructor (frameCollection: TrackedFrameCollection)
      requires AllTracksNonEmpty(frameCollection.allObjects)
      ensures this.frameCollection == frameCollection
      ensures anomalies == ScanResult(map[], frameCollection.allObjects)
    {
      this.frameCollection := frameCollection;
      anomalies := map[];
      new;
      ScanForAnomalies();
    }

    /** `scan_for_anomalies`: inspects every object of `all_objects` once. */
    method ScanForAnomalies()
      requires AllTracksNonEmpty(frameCollection.allObjects)
      modifies this`anomalies
      ensures anomalies == ScanResult(old(anomalies), frameCollection.allObjects)
    {
      var allObjects := frameCollection.allObjects;
      var ids := KeysInSomeOrder(allObjects);
      InspectEach(allObjects, ids);
      ScanOrderIrrelevant(old(anomalies), allObjects, ids);
    }

    /** The `for` loop of `scan_for_anomalies`, over the keys in the order the
        dictionary yields them. */
    method InspectEach(allObjects: Objects, ids: seq<TrackId>)
      requires AllTracksNonEmpty(allObjects)
      requires forall k :: 0 <= k < |ids| ==> ids[k] in allObjects
      modifies this`anomalies
      ensures anomalies == ScanInOrder(old(anomalies), allObjects, ids)
    {
      for i := 0 to |ids|
        invariant anomalies == ScanInOrder(old(anomalies), allObjects, ids[..i])
      {
        var objectId := ids[i];
        assert ids[..i + 1][..i] == ids[..i];
        var _ := InspectObjectForAnomalies(objectId, allObjects[objectId]);
      }
      assert ids[..|ids|] == ids;
    }

    /** `inspect_object_for_anomalies`: the four checks in order, joined by a
        short-circuiting `or`. */
    method InspectObjectForAnomalies(objectId: TrackId, trackInfo: History) returns (anomalyExist: bool)
      requires trackInfo != map[]
      modifies this`anomalies
      ensures anomalyExist == (InspectFindings(trackInfo) != [])
      ensures anomalies == Record(old(anomalies), objectId, InspectFindings(trackInfo))
    {
      anomalyExist := IsClassInconsistent(objectId, trackInfo);
      if !anomalyExist {
        anomalyExist := IsObjectMissingInFrames(objectId, trackInfo);
      }
      if !anomalyExist {
        anomalyExist := AppearsOnlyInSingleFrame(objectId, trackInfo);
      }
      if !anomalyExist {
        anomalyExist := HasLowIou(objectId, trackInfo);
      }
    }

    /** Appends one finding to the object's list, creating the list if needed. */
    method Log(objectId: TrackId, finding: Finding)
      modifies this`anomalies
      ensures anomalies == Record(old(anomalies), objectId, [finding])
    {
      anomalies := anomalies[objectId := Listed(anomalies, objectId) + [finding]];
    }

    /** `is_class_inconsistent`: records the set of class names when there is
        more than one. (Its docstring states the opposite of what it returns;
        the model follows the code.) */
    method IsClassInconsistent(objectId: TrackId, trackInfo: History) returns (inconsistent: bool)
      modifies this`anomalies
      ensures inconsistent == ClassCheckFires(trackInfo)
      ensures anomalies == Record(old(anomalies), objectId,
                                  if inconsistent then [ClassInconsistent(ClassSet(trackInfo))] else [])
    {
      var allClasses := ClassSet(trackInfo);
      if |allClasses| > 1 {
        Log(objectId, ClassInconsistent(allClasses));
      }
      inconsistent := |allClasses| > 1;
    }

    /** `is_object_missing_in_frames`: records how many frame ids between the
        first and the last observation are absent. */
    method IsObjectMissingInFrames(objectId: TrackId, trackInfo: History) returns (missing: bool)
      requires trackInfo != map[]
      modifies this`anomalies
      ensures missing == MissingCheckFires(trackInfo)
      ensures anomalies == Record(old(anomalies), objectId,
                                  if missing then [MissingInFrames(MissingCount(trackInfo))] else [])
    {
      var keys := trackInfo.Keys;
      var mnIdx, mxIdx, size := Min(keys), Max(keys), |trackInfo|;
      var expectedSize := mxIdx - mnIdx + 1;
      if size != expectedSize {
        Log(objectId, MissingInFrames(expectedSize - size));
      }
      missing := expectedSize != size;
    }

    /** `appears_only_in_single_frame`. */
    method AppearsOnlyInSingleFrame(objectId: TrackId, trackInfo: History) returns (single: bool)
      modifies this`anomalies
      ensures single == SingleCheckFires(trackInfo)
      ensures anomalies == Record(old(anomalies), objectId, if single then [SingleFrameOccurrence] else [])
    {
      if |trackInfo| == 1 {
        Log(objectId, SingleFrameOccurrence);
      }
      single := |trackInfo| == 1;
    }

    /** `has_low_iou`: walks the consecutive pairs of the sorted frame ids and
        records every pair whose IoU is below `MIN_IOU_THRESH`. */
    method HasLowIou(objectId: TrackId, trackInfo: History) returns (flag: bool)
      modifies this`anomalies
      ensures flag == (LowIouFindings(trackInfo) != [])
      ensures anomalies == Record(old(anomalies), objectId, LowIouFindings(trackInfo))
    {
      SortedKeysIn(trackInfo);
      flag := LogLowIouPairs(objectId, trackInfo, Sorted(trackInfo.Keys));
    }

    /** The loop of `has_low_iou`, over a given list of frame ids. */
    method LogLowIouPairs(objectId: TrackId, trackInfo: History, keys: seq<int>) returns (flag: bool)
      requires forall k :: 0 <= k < |keys| ==> keys[k] in trackInfo
      modifies this`anomalies
      ensures flag == (LowIouFindingsUpTo(trackInfo, keys, PairCount(keys)) != [])
      ensures anomalies == Record(old(anomalies), objectId, LowIouFindingsUpTo(trackInfo, keys, PairCount(keys)))
    {
      var pairs := PairCount(keys);
      flag := false;
      var i := 0;
      while i < pairs
        invariant 0 <= i <= pairs
        invariant anomalies == Record(old(anomalies), objectId, LowIouFindingsUpTo(trackInfo, keys, i))
        invariant flag == (LowIouFindingsUpTo(trackInfo, keys, i) != [])
      {
        var low := CheckPair(old(anomalies), objectId, trackInfo, keys, i);
        flag := flag || low;
        i := i + 1;
      }
    }

    /** One pass of the loop of `has_low_iou`: the IoU of the `i`-th
        consecutive pair of `keys`, logged when it is below the threshold. */
    method CheckPair(ghost start: Anomalies, objectId: TrackId, trackInfo: History, keys: seq<int>, i: int)
      returns (low: bool)
      requires forall k :: 0 <= k < |keys| ==> keys[k] in trackInfo
      requires 0 <= i && i + 1 < |keys|
      requires anomalies == Record(start, objectId, LowIouFindingsUpTo(trackInfo, keys, i))
      modifies this`anomalies
      ensures low == (PairIou(trackInfo, keys, i) < MIN_IOU_THRESH)
      ensures low ==> LowIouFindingsUpTo(trackInfo, keys, i + 1) != []
      ensures !low ==> LowIouFindingsUpTo(trackInfo, keys, i + 1) == LowIouFindingsUpTo(trackInfo, keys, i)
      ensures anomalies == Record(start, objectId, LowIouFindingsUpTo(trackInfo, keys, i + 1))
    {
      var frameI, frameJ := keys[i], keys[i + 1];
      var iou := Iou(trackInfo[frameI].ltrb, trackInfo[frameJ].ltrb);
      ghost var found := if iou < MIN_IOU_THRESH then [LowIou(iou, frameI, frameJ)] else [];
      assert LowIouFindingsUpTo(trackInfo, keys, i + 1) == LowIouFindingsUpTo(trackInfo, keys, i) + found;
      RecordTwice(start, objectId, LowIouFindingsUpTo(trackInfo, keys, i), found);
      low := false;
      if iou < MIN_IOU_THRESH {
        Log(objectId, LowIou(iou, frameI, frameJ));
        low := true;
      }
    }
  }
}
