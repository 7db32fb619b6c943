# Temporal consistency of tracked objects — a Dafny model

The system runs an object detector and a multi-object tracker over a video. It
gathers the tracked predictions per object and per frame. Afterwards it flags
objects whose track looks implausible: the class changes, the object goes
missing, it appears only once, or its box jumps between consecutive
observations.

This project models the in-memory core of that analysis:

- `geometry.dfy` (module `Geometry`): the box encodings `ltwh` and `ltrb`, and
  intersection-over-union (IoU), from `temporal_consistency/utils.py`.
- `detection.dfy` (module `Detection`): reshaping raw detector rows, and the
  split of results by confidence, from
  `temporal_consistency/object_detection_tracking.py`.
- `tracking.dfy` (module `Tracking`): `Prediction`, `TrackedFrame` and the
  `TrackedFrameCollection` class, from `temporal_consistency/tracked_frame.py`.
  The collection's methods update `tracked_frames`, `all_objects`
  (track id → frame id → prediction) and `all_frames`
  (frame id → predictions) in place.
- `anomaly.dfy` (module `AnomalyDetection`): the `TemporalAnomalyDetector`
  class, from `temporal_consistency/frame_anomaly_detection.py`. It holds the
  four checks and the anomaly record they append to.
- `keys.dfy` (module `Keys`) and `common.dfy` (module `Common`): Python's
  `min`, `max`, `sorted` and `range` over integer frame ids, `dict.get`, list
  indexing with negative indices, and `Option`/`Result`.

Each stateful operation is a method on a class, proved against a
specification function. For example, `UpdateAllObjectsDict` is proved against
`ObjectsAfter`/`FramesAfter`, and `InspectObjectForAnomalies` against
`Record` of `InspectFindings`. The properties the code promises are lemmas
about those functions.

Where the code and its documented intent differ, the model follows the code:

- `inspect_object_for_anomalies` joins the checks with a short-circuiting
  `or`. Once one check fires, the later ones do not run and append nothing.
  The checks are not all evaluated independently.
- The class check records the set of class names (`None` included), not a
  frame id. Its docstring says it returns True when the class is
  consistent; the code returns True when it is inconsistent.
- The missing check records the number of absent frames, not their ids.
- The single-frame check records no frame id.
- The low-IoU check records the IoU and both frame ids of each offending
  pair.
- `get_detected_object` is documented as filtering by confidence, but it
  filters nothing.
- Reading an unknown id does not raise a not-found error. `get_frame_predictions`
  and `export_object` read `defaultdict`s, so they first insert an empty
  entry. `get_frame_predictions` then indexes `tracked_frames[frame_id]`,
  which raises `IndexError`, or, for a negative id, reads from the end of the
  list. `export_object` never reaches `tracked_frames` for an unknown object:
  `min` of the empty history it just inserted raises `ValueError` first. It
  raises `IndexError` only for a known object one of whose frame ids is not a
  position of `tracked_frames`.
- `update_all_objects_dict` has no confirmed-track filter: every track handed
  in is stored.

## Model

| member | source | states |
|---|---|---|
| Common.Lookup | temporal_consistency/tracked_frame.py:44 | `class_names.get(class_id, None)`: a name exactly when the id is a key, and then the table's name |
| Common.PyIndex | temporal_consistency/tracked_frame.py:191-193 | a list read succeeds exactly for indices in `[-len, len)`; a non-negative index reads that position, a negative one counts from the end |
| Keys.Min | temporal_consistency/frame_anomaly_detection.py:90 | `min(keys)` of a non-empty set is a member of the set and a lower bound of it |
| Keys.Max | temporal_consistency/frame_anomaly_detection.py:90 | `max(keys)` of a non-empty set is a member of the set and an upper bound of it |
| Keys.Sorted | temporal_consistency/frame_anomaly_detection.py:124 | `sorted(list(keys))` lists exactly the set's elements, strictly ascending, each once |
| Keys.Range | temporal_consistency/tracked_frame.py:163 | `range(lo, hi + 1)` holds exactly the integers from `lo` to `hi`, `hi - lo + 1` of them |
| Keys.ExpectedSize | temporal_consistency/frame_anomaly_detection.py:90-91 | the span `max - min + 1` of a non-empty key set is at least 1 |
| Keys.GapIffShort | temporal_consistency/frame_anomaly_detection.py:89-97 | a key set never exceeds its span, and is smaller than it exactly when some id between min and max is absent |
| Keys.GapCount | temporal_consistency/frame_anomaly_detection.py:91-93 | `expected_size - size` equals the number of ids in `[min, max]` absent from the keys |
| Geometry.LtwhToLtrb | temporal_consistency/utils.py:86-94 | definition: `[left, top, left + width, top + height]`; `LtwhRoundTrip` and `LtwhToLtrbCopy` state its properties |
| Geometry.LtrbToLtwh | temporal_consistency/utils.py:97-105 | definition: `[left, top, right - left, bottom - top]`; `LtrbRoundTrip` and `LtrbToLtwhCopy` state its properties |
| Geometry.LtwhRoundTrip | temporal_consistency/utils.py:86-105 | `ltrb_to_ltwh(ltwh_to_ltrb(x)) == x` |
| Geometry.LtrbRoundTrip | temporal_consistency/utils.py:86-105 | `ltwh_to_ltrb(ltrb_to_ltwh(y)) == y` |
| Geometry.LtwhToLtrbCopy | temporal_consistency/utils.py:86-94 | on a fresh copy, right = left + width and bottom = top + height; the argument is unchanged |
| Geometry.LtrbToLtwhCopy | temporal_consistency/utils.py:97-105 | on a fresh copy, width = right - left and height = bottom - top; the argument is unchanged |
| Geometry.InterWidth | temporal_consistency/utils.py:50-56 | the overlap width is clamped at zero |
| Geometry.InterHeight | temporal_consistency/utils.py:51-56 | the overlap height is clamped at zero |
| Geometry.InterArea | temporal_consistency/utils.py:56 | the intersection area is never negative |
| Geometry.Area | temporal_consistency/utils.py:59-60 | definition: `(right - left) * (bottom - top)`, negative for a box whose corners are swapped along one axis |
| Geometry.UnionArea | temporal_consistency/utils.py:63 | definition: `box1_area + box2_area - inter_area`; `InterWithinAreas` bounds it |
| Geometry.RoundedDenominator | temporal_consistency/utils.py:63 | `float(union + EPS)` rounded to the nearest double: never zero, within EPS above the union, and equal to the union once it is 2 or more (or -3 or less) |
| Geometry.Iou | temporal_consistency/utils.py:39-65 | definition: the intersection over the rounded denominator; the lemmas below and `IouThresholdByAreas` state its properties |
| Geometry.IouSymmetric | temporal_consistency/utils.py:50-63 | intersection, union and IoU do not depend on argument order |
| Geometry.IouZeroWhenApart | temporal_consistency/utils.py:50-63 | boxes that are apart, or touch only along an edge or at a corner, have intersection 0 and IoU 0 |
| Geometry.InterWithinAreas | temporal_consistency/utils.py:56-61 | for well-formed boxes the intersection is at most each area and at most the union |
| Geometry.IouBounds | temporal_consistency/utils.py:56-63 | for well-formed boxes `0 <= IoU <= 1`, with IoU exactly 1 when the boxes cover the same area of at least 2 |
| Geometry.IouNearExactRatio | temporal_consistency/utils.py:63 | with a positive union, EPS lowers the IoU below `inter / union` by less than EPS, and not at all once the union is at least 2 |
| Geometry.IouIdentical | temporal_consistency/utils.py:50-63 | a box against itself: intersection = union = area; IoU exactly 1 for an area of 2 or more, just below 1 (by less than EPS) for an area of 1 |
| Geometry.IouNested | temporal_consistency/utils.py:50-61 | a box inside another: intersection = inner area, union = outer area |
| Geometry.IouShiftInvariant | temporal_consistency/utils.py:50-63 | translating both boxes by the same offset leaves the IoU unchanged |
| Geometry.IouTestVectors | tests_unit/test_utils.py:14-34 | every expected value of the IoU unit tests is met: 0, 0, 1/7, 1/9, 1/4 and 1/19 exactly, and 1 within 10^-10 (from below) for the unit square against itself |
| Detection.Trunc | temporal_consistency/object_detection_tracking.py:46 | `int()` of a float truncates toward zero: within 1 of the argument, never farther from zero |
| Detection.GetDetectedObject | temporal_consistency/object_detection_tracking.py:44-50 | turning the result box back into corners gives the truncated detector corners; confidence is kept and the class is truncated |
| Detection.GetDetectedObjectIgnoresThreshold | temporal_consistency/object_detection_tracking.py:33-50 | the threshold argument has no influence on the result |
| Detection.AllResults | temporal_consistency/object_detection_tracking.py:68-71 | one reshaped result per detector row, in row order |
| Detection.Confident | temporal_consistency/object_detection_tracking.py:75-77 | definition: the results with `confidence >= threshold`, in input order; `SplitIsPartition` and `SplitPreservesOrder` state its properties |
| Detection.LowConfidence | temporal_consistency/object_detection_tracking.py:78-79 | definition: the remaining results, in input order; `SplitIsPartition` and `SplitPreservesOrder` state its properties |
| Detection.SplitIsPartition | temporal_consistency/object_detection_tracking.py:75-79 | the two lists together hold every result exactly once (as multisets), and each holds only results on its side of the threshold |
| Detection.SplitPreservesOrder | temporal_consistency/object_detection_tracking.py:75-79 | splitting a concatenation splits each part in turn, so input order is kept within each list |
| Detection.ObjectDetection | temporal_consistency/object_detection_tracking.py:68-79 | the loop's two lists are the confident and low-confidence selections; lengths add up and each side respects `>= threshold` |
| Tracking.NewPrediction | temporal_consistency/tracked_frame.py:32-44 | stores frame id, box, confidence and class id verbatim; the class name is present exactly when the class id is in the table |
| Tracking.ObjectIds | temporal_consistency/tracked_frame.py:99-100 | every track's id is an object id |
| Tracking.ObjectIdsMembers | temporal_consistency/tracked_frame.py:99-100 | every object id is the id of some track |
| Tracking.ObjectIdsSnoc | temporal_consistency/tracked_frame.py:99-100 | one more track adds exactly its id to the object ids |
| Tracking.ObjectIdsCount | temporal_consistency/tracked_frame.py:74-75 | there are at most `num_object` object ids, and exactly that many when no id repeats |
| Tracking.LowConfidencePredictions | temporal_consistency/tracked_frame.py:85-97 | one prediction per low-confidence result |
| Tracking.GetLowConfidenceObjects | temporal_consistency/tracked_frame.py:80-97 | the loop yields one prediction per result in input order, with the frame's id, the corners of the result's box (`ltrb_to_ltwh` recovers it), its confidence, class id and resolved name |
| Tracking.NewTrackedFrame | temporal_consistency/tracked_frame.py:63-78 | a frame record with `num_object` = number of tracks, the tracks' id set and the low-confidence predictions |
| Tracking.TrackPrediction | temporal_consistency/tracked_frame.py:133-139 | definition: the `Prediction` built from a track, with this frame id, the track's corners, `det_conf` and `det_class` |
| Tracking.Upsert | temporal_consistency/tracked_frame.py:140-141 | definition: `all_objects[track_id].update({frame_id: prediction})` on a `defaultdict(dict)` |
| Tracking.Append | temporal_consistency/tracked_frame.py:142 | definition: `all_frames[frame_id].append(prediction)` on a `defaultdict(list)` |
| Tracking.ObjectsAfter | temporal_consistency/tracked_frame.py:131-141 | definition: the upserts of the frame's tracks in tracker order; the `ObjectsAfter*` lemmas state what it promises |
| Tracking.FramesAfter | temporal_consistency/tracked_frame.py:131-142 | definition: the appends of the frame's tracks in tracker order; `FramesAfterSpec` states what it promises |
| Tracking.FramePredictions | temporal_consistency/tracked_frame.py:131-142 | one prediction per track of the frame |
| Tracking.ObjectsAfterKeys | temporal_consistency/tracked_frame.py:131-141 | after a frame, the object ids are the earlier ones plus the frame's track ids |
| Tracking.ObjectsAfterHistoryKeys | temporal_consistency/tracked_frame.py:140-141 | an object's frame ids after a frame are its earlier ones, plus this frame id exactly when one of its tracks is in the frame |
| Tracking.ObjectsAfterHistoryKept | temporal_consistency/tracked_frame.py:140-141 | an object's entries for other frames are unchanged, and an object absent from the frame keeps its whole history |
| Tracking.ObjectsAfterLastWins | temporal_consistency/tracked_frame.py:131-141 | each track's prediction is stored under its id and the frame id, and when an id repeats the last track wins |
| Tracking.FramesAfterSpec | temporal_consistency/tracked_frame.py:131-142 | the frame's list grows by one prediction per track in tracker order, duplicates kept; other frames are unchanged; a frame without tracks gains no key |
| Tracking.ObjectsAfterNonEmpty | temporal_consistency/tracked_frame.py:140-141 | ingesting a frame never leaves an object without observations |
| Tracking.SelectExportFrames | temporal_consistency/tracked_frame.py:159-169 | an empty history raises; otherwise the history's frame ids are visited once each in ascending order, each resolved to its prediction and frame, until an id that is not a list position raises |
| Tracking.TrackedFrameCollection.constructor | temporal_consistency/tracked_frame.py:106-118 | an empty collection: no frames, no objects, no frame lists |
| Tracking.TrackedFrameCollection.AddTrackedFrame | temporal_consistency/tracked_frame.py:120-124 | exactly one frame is appended and earlier frames are kept; both aggregates are updated as `update_all_objects_dict` specifies; the class invariant and non-empty histories are preserved |
| Tracking.TrackedFrameCollection.UpdateAllObjectsDict | temporal_consistency/tracked_frame.py:126-142 | the new aggregates are the upsert and append folds over the frame's tracks; every stored prediction stays under its own frame id with its resolved class name |
| Tracking.TrackedFrameCollection.AddTrack | temporal_consistency/tracked_frame.py:131-142 | one track: its prediction is upserted into its object's history and appended to the frame's list |
| Tracking.TrackedFrameCollection.GetFramePredictions | temporal_consistency/tracked_frame.py:187-194 | inserts an empty list for an unseen frame id; returns that frame's list and the stored frame's low-confidence predictions exactly when the id is a valid list index |
| Tracking.TrackedFrameCollection.ExportObjectFrames | temporal_consistency/tracked_frame.py:156-169 | inserts an empty history for an unseen id, then selects the frames as `SelectExportFrames` does |
| AnomalyDetection.Record | temporal_consistency/frame_anomaly_detection.py:76 | definition: appending findings to one object's list of a `defaultdict(list)`; `RecordOnlyAppends` and `RecordTwice` state its properties |
| AnomalyDetection.Listed | temporal_consistency/frame_anomaly_detection.py:76 | definition: reading an object's list from the `defaultdict(list)`, an empty list for an object not yet recorded; `RecordOnlyAppends` and `ScanResultSpec` use it |
| AnomalyDetection.RecordOnlyAppends | temporal_consistency/frame_anomaly_detection.py:73-76 | a check only appends to the inspected object's list: other objects' lists are unchanged and earlier findings stay a prefix |
| AnomalyDetection.RecordTwice | temporal_consistency/frame_anomaly_detection.py:133-140 | two successive appends to an object equal one append of both, in order |
| AnomalyDetection.ClassSet | temporal_consistency/frame_anomaly_detection.py:71 | definition: the set of the observations' class names; `ClassSetMembers` and `ClassSetSize` state its properties |
| AnomalyDetection.ClassSetMembers | temporal_consistency/frame_anomaly_detection.py:71 | the class set holds the class name of every observation, and nothing else |
| AnomalyDetection.ClassCheckFires | temporal_consistency/frame_anomaly_detection.py:71-78 | definition: `len(all_classes) > 1`, the class check's result; `ClassCheckFiresIff` states when it holds |
| AnomalyDetection.ClassCheckFiresIff | temporal_consistency/frame_anomaly_detection.py:71-78 | the class check fires exactly when two observations carry different class names |
| AnomalyDetection.ClassSetSize | temporal_consistency/frame_anomaly_detection.py:71 | there are never more class names than observations |
| AnomalyDetection.MissingCheckFires | temporal_consistency/frame_anomaly_detection.py:89-97 | definition: `size != expected_size` over a non-empty history; `MissingCheckFiresIff` states when it holds |
| AnomalyDetection.MissingCount | temporal_consistency/frame_anomaly_detection.py:89-95 | definition: `(max - min + 1) - len`; `MissingCheckFiresIff` states what it counts |
| AnomalyDetection.MissingCheckFiresIff | temporal_consistency/frame_anomaly_detection.py:89-97 | the missing check fires exactly when a frame id between min and max is absent; the logged count is the number of absent ids, positive exactly when it fires |
| AnomalyDetection.SingleCheckFires | temporal_consistency/frame_anomaly_detection.py:109-114 | definition: `len(track_info) == 1`, the single-frame check's result; `SingleNeverMissing` and `SingleExample` state its consequences |
| AnomalyDetection.SingleNeverMissing | temporal_consistency/frame_anomaly_detection.py:89-114 | a single-frame object never fires the missing check |
| AnomalyDetection.PairIou | temporal_consistency/frame_anomaly_detection.py:126-131 | definition: the IoU of the `i`-th consecutive pair of the key list, as `compute_iou` computes it; `IouThresholdByAreas` states when it is below 0.5 |
| AnomalyDetection.PairCount | temporal_consistency/frame_anomaly_detection.py:126 | the number of pairs `zip(keys, keys[1:])` yields: zero for an empty list, otherwise one fewer than the keys |
| AnomalyDetection.LowIouFindingsUpTo | temporal_consistency/frame_anomaly_detection.py:126-140 | definition: the findings of the first `n` pairs of the key list, one per pair below 0.5, in pair order |
| AnomalyDetection.LowIouFindings | temporal_consistency/frame_anomaly_detection.py:124-142 | definition: the pair walk over `sorted` frame ids; `LowIouFindingsSpec` states what it promises |
| AnomalyDetection.LowIouFindingsUpToSpec | temporal_consistency/frame_anomaly_detection.py:124-142 | the first `n` pairs yield at most `n` findings; some finding exactly when some pair is below 0.5; each finding names such a pair |
| AnomalyDetection.LowIouFindingsUpToComplete | temporal_consistency/frame_anomaly_detection.py:126-140 | every pair among the first `n` with IoU below 0.5 has its finding among theirs: no failing pair is skipped |
| AnomalyDetection.LowIouFindingsUpToOrdered | temporal_consistency/frame_anomaly_detection.py:126-140 | over an ascending key list the findings are in strictly ascending order of their earlier frame, so each pair is reported once |
| AnomalyDetection.NeighboursAreConsecutive | temporal_consistency/frame_anomaly_detection.py:124-126 | neighbours in the sorted key list have no observation between them |
| AnomalyDetection.ConsecutiveAreNeighbours | temporal_consistency/frame_anomaly_detection.py:124-126 | two observations with none between them are neighbours in the sorted key list |
| AnomalyDetection.SortedKeysIn | temporal_consistency/frame_anomaly_detection.py:124-128 | every sorted key indexes the history, so the pair lookups never fail |
| AnomalyDetection.LowIouFindingsOver | temporal_consistency/frame_anomaly_detection.py:124-142 | over any ascending key list: at most `len - 1` findings, some exactly when two consecutive observations have IoU below 0.5, each naming such a pair and its IoU, every such pair reported, in frame order |
| AnomalyDetection.LowIouFindingsOverComplete | temporal_consistency/frame_anomaly_detection.py:124-142 | over any ascending key list every low consecutive pair is reported with its IoU, and the findings are in frame order |
| AnomalyDetection.LowIouFindingsSpec | temporal_consistency/frame_anomaly_detection.py:124-142 | for the whole history in `sorted` order: each finding names a consecutive pair below 0.5 with its IoU, every such pair has its finding, and the findings are in frame order (so exactly one per failing pair) |
| AnomalyDetection.IouThresholdByAreas | temporal_consistency/frame_anomaly_detection.py:131-133 | with a positive union, the pair is below 0.5 exactly when twice the intersection is below the union; a ratio of exactly 1/2 is not low |
| AnomalyDetection.InspectFindings | temporal_consistency/frame_anomaly_detection.py:56-61 | definition: the first check that fires contributes its findings, and later checks add nothing; `InspectFindingsSpec` states what it promises |
| AnomalyDetection.Anomalous | temporal_consistency/frame_anomaly_detection.py:56-62 | definition: the `or` of the four checks' results; `InspectFindingsSpec` ties it to the findings |
| AnomalyDetection.InspectFindingsSpec | temporal_consistency/frame_anomaly_detection.py:56-62 | the returned `or` is true exactly when something was appended; at most `len - 1` findings (1 for a single frame); exactly one when one of the first three checks fires |
| AnomalyDetection.CleanObjectHasNoFindings | temporal_consistency/frame_anomaly_detection.py:56-61 | a gap-free object with one class, at least two frames, and consecutive boxes overlapping by at least half of a positive union gets no finding |
| AnomalyDetection.OverlappingHistoryHasNoLowIou | temporal_consistency/frame_anomaly_detection.py:124-142 | with no frame missing and every adjacent pair overlapping by at least half of a positive union, the IoU check appends nothing |
| AnomalyDetection.ShortCircuitExample | temporal_consistency/frame_anomaly_detection.py:56-61 | an object with two class names and a gap gets only the class finding |
| AnomalyDetection.MissingExample | temporal_consistency/frame_anomaly_detection.py:89-97 | frames 0, 1, 3 under one class give a single finding with count 1 |
| AnomalyDetection.SingleExample | temporal_consistency/frame_anomaly_detection.py:109-114 | an object seen only in frame 5 gets only the single-frame finding |
| AnomalyDetection.SmallOverlapIsLow | temporal_consistency/frame_anomaly_detection.py:131-133 | `[0,0,10,10]` against `[8,8,18,18]`: intersection 4, union 196, IoU below 0.5 |
| AnomalyDetection.LowIouExample | temporal_consistency/frame_anomaly_detection.py:124-142 | those two boxes in frames 0 and 1 under one class give exactly one low-IoU finding for the pair (0, 1) |
| AnomalyDetection.HalfOverlapIsNotLow | temporal_consistency/frame_anomaly_detection.py:131-133 | `[0,0,2,2]` against `[0,0,2,1]`: intersection 2, union 4, IoU exactly 0.5, which is not below the threshold |
| AnomalyDetection.HalfOverlapExample | temporal_consistency/frame_anomaly_detection.py:124-142 | those two boxes in frames 0 and 1 under one class give no finding |
| AnomalyDetection.FindingsOf | temporal_consistency/frame_anomaly_detection.py:38-39 | each inspected object maps to the findings its inspection appends |
| AnomalyDetection.Merge | temporal_consistency/frame_anomaly_detection.py:32-39 | the `defaultdict(list)` record after appending each object's findings: an object has an entry exactly when it had one before, or its findings are non-empty |
| AnomalyDetection.ScanOverNothing | temporal_consistency/frame_anomaly_detection.py:38-39 | inspecting no object leaves the record unchanged |
| AnomalyDetection.MergeStep | temporal_consistency/frame_anomaly_detection.py:38-39 | appending one more object's findings extends the merged record by that object |
| AnomalyDetection.ScanStep | temporal_consistency/frame_anomaly_detection.py:38-39 | inspecting one more object extends the scan by that object |
| AnomalyDetection.ScanOver | temporal_consistency/frame_anomaly_detection.py:38-39 | definition: the record after inspecting each object of a set once, starting from a given record; `ScanOverNothing`, `ScanStep` and `ScanInOrderIsScanOver` state its properties |
| AnomalyDetection.ScanResult | temporal_consistency/frame_anomaly_detection.py:32-39 | definition: the record after inspecting every object once from a given record; `ScanResultSpec` states what it holds |
| AnomalyDetection.ScanInOrder | temporal_consistency/frame_anomaly_detection.py:38-39 | definition: inspecting the listed objects one after another, each appending its findings |
| AnomalyDetection.ScanInOrderIsScanOver | temporal_consistency/frame_anomaly_detection.py:38-39 | inspecting distinct objects one after another gives the record of inspecting that set |
| AnomalyDetection.ScanOrderIrrelevant | temporal_consistency/frame_anomaly_detection.py:38-39 | every order that visits each object exactly once gives the same record |
| AnomalyDetection.KeysInSomeOrder | temporal_consistency/frame_anomaly_detection.py:38 | the dict's keys, each exactly once |
| AnomalyDetection.ScanResultSpec | temporal_consistency/frame_anomaly_detection.py:35-41 | after a scan from empty, the record's keys are a subset of the objects; an object has an entry exactly when it is anomalous, and the entry holds its findings |
| AnomalyDetection.TemporalAnomalyDetector.constructor | temporal_consistency/frame_anomaly_detection.py:23-33 | starts from an empty record and ends with the full scan's record |
| AnomalyDetection.TemporalAnomalyDetector.ScanForAnomalies | temporal_consistency/frame_anomaly_detection.py:35-41 | the record afterwards is the order-independent scan of every object |
| AnomalyDetection.TemporalAnomalyDetector.InspectEach | temporal_consistency/frame_anomaly_detection.py:38-39 | the loop inspects the listed objects in the listed order |
| AnomalyDetection.TemporalAnomalyDetector.InspectObjectForAnomalies | temporal_consistency/frame_anomaly_detection.py:43-62 | appends the short-circuited findings to this object only; returns true exactly when something was appended |
| AnomalyDetection.TemporalAnomalyDetector.Log | temporal_consistency/frame_anomaly_detection.py:76 | `anomalies[object_id].append(finding)` on a `defaultdict(list)` |
| AnomalyDetection.TemporalAnomalyDetector.IsClassInconsistent | temporal_consistency/frame_anomaly_detection.py:64-78 | returns whether there is more than one class name, and then appends the class set |
| AnomalyDetection.TemporalAnomalyDetector.IsObjectMissingInFrames | temporal_consistency/frame_anomaly_detection.py:80-97 | returns whether `len != max - min + 1`, and then appends the count |
| AnomalyDetection.TemporalAnomalyDetector.AppearsOnlyInSingleFrame | temporal_consistency/frame_anomaly_detection.py:99-114 | returns whether there is exactly one entry, and then appends the single-frame finding |
| AnomalyDetection.TemporalAnomalyDetector.HasLowIou | temporal_consistency/frame_anomaly_detection.py:116-142 | appends one finding per consecutive sorted pair with IoU below 0.5, in pair order; returns true exactly when it appended one |
| AnomalyDetection.TemporalAnomalyDetector.LogLowIouPairs | temporal_consistency/frame_anomaly_detection.py:124-142 | the pair loop over a given key list: `flag` is true exactly when the walk produced a finding |
| AnomalyDetection.TemporalAnomalyDetector.CheckPair | temporal_consistency/frame_anomaly_detection.py:126-140 | one pair: reports whether its IoU is below 0.5, and the record grows by exactly that pair's finding |

## Left out

- Video and image I/O are not modelled:
  - `create_video_writer`;
  - `export_all_objects`;
  - the cropping and writing in `export_object`;
  - `get_frame`;
  - `temporal_consistency/vis_utils.py`.
  
  A frame is an opaque token. Only the frame selection of `export_object` is modelled.
- Foreign libraries are left out:
  - YOLO inference, torch and the augmentations (`temporal_consistency/augmentations.py`) in `object_detection`;
  - DeepSort's `update_tracks` and `is_confirmed`.
  
  The detector rows and the tracks are parameters. A track is a record whose corners are already integers. The deep copy of the tracker is a value copy of its tracks.
- The driver loop (`process_single_frame`, `apply_detection_and_tracking`), `main.py`, the configuration and the test fixtures are glue around the core. `main.py` is not part of this model.
- `get_runtime_str` reads the wall clock and is left out.
- Logging is left out: the `loguru` calls, the f-string text of each finding, and `Prediction.to_str`/`to_str_all`. A finding is an abstract record of what its sentence reports.
- Geometry.Iou: the denominator `float(union + EPS)` is rounded to a double as Python rounds it (`RoundedDenominator`), which is exact while the union is below 2^53 in magnitude. The division itself is over exact reals, so the IoU value carried by a finding may differ from Python's double in the last place. The `< 0.5` decision is unaffected: a quotient below 1/2 with such a denominator is at least 2^-54 below it, farther than the double rounding moves it. Unions of 2^53 or more are not modelled.
- Tracking.Track: `det_conf` is `Option<real>` (DeepSort leaves it `None` for unmatched tracks). The float-to-int cast of `track.to_ltrb()` is assumed done.
- AnomalyDetection.KeysInSomeOrder: Python iterates a dict in insertion order. The model leaves the order open, and `ScanOrderIrrelevant` shows the result does not depend on it.
- AnomalyDetection.TemporalAnomalyDetector.InspectObjectForAnomalies: its `ensures` states the returned value as "something was appended". `InspectFindingsSpec` proves that equals the `or` of the four checks (`Anomalous`).
- AnomalyDetection.TemporalAnomalyDetector.ScanForAnomalies: requires every history to be non-empty, because `min`/`max` of an empty history raise. `AddTrackedFrame` preserves this. `ExportObjectFrames` on an unknown object id does not: it leaves an empty history behind, and a scan of the collection afterwards would raise `ValueError` from `min`, which the model does not cover.
