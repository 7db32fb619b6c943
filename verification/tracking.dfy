/** The tracked-data collection of `temporal_consistency/tracked_frame.py`:
    per-observation predictions, the per-frame record, and the collection that
    aggregates them by object (track id) and by frame id. */
module Tracking {
  import opened Common
  import opened Geometry
  import opened Keys
  import Detection

  /** A DeepSort track id. */
  type TrackId = string

  /** A frame image, kept as an opaque token. */
  datatype Frame = Frame(token: nat)

  /** A DeepSort track as this code reads it: id, corners already cast to
      integers, the detection confidence (absent when the track was not matched
      to a fresh detection) and the detected class. */
  datatype Track = Track(trackId: TrackId, ltrb: Box, detConf: Option<real>, detClass: int)

  /** `Prediction`: one object observed in one frame. */
  datatype Prediction = Prediction(
    frameId: int,
    ltrb: Box,
    confidence: Option<real>,
    classId: int,
    className: Option<string>)

  /** `Prediction.__init__`: stores its arguments and resolves the class name
      with `class_names.get(class_id, None)`. */
  function NewPrediction(frameId: int, ltrb: Box, confidence: Option<real>, classId: int,
                         classNames: map<int, string>): (p: Prediction)
    ensures p.frameId == frameId && p.ltrb == ltrb && p.confidence == confidence && p.classId == classId
    ensures p.className.Some? <==> classId in classNames
    ensures p.className.Some? ==> p.className.value == classNames[classId]
  {
    Prediction(frameId, ltrb, confidence, classId, Lookup(classNames, classId))
  }

  /** The class name a prediction carries is the one the table gives its class. */
  predicate NameResolved(p: Prediction, classNames: map<int, string>)
  {
    p.className == Lookup(classNames, p.classId)
  }

  // ---------------------------------------------------------------------------
  // TrackedFrame

  /** `TrackedFrame`: a processed frame with a value copy of the tracker's tracks
      (the source deep-copies the tracker) and its low-confidence detections. */
  datatype TrackedFrame = TrackedFrame(
    frameId: int,
    tracks: seq<Track>,
    frame: Frame,
    numObject: nat,
    objectIds: set<TrackId>,
    lowConfidenceObjects: seq<Prediction>)

  /** `get_object_ids`: the set of track ids of the frame. */
  function ObjectIds(tracks: seq<Track>): (ids: set<TrackId>)
    ensures forall i :: 0 <= i < |tracks| ==> tracks[i].trackId in ids
  {
    set t | t in tracks :: t.trackId
  }

  /** Every object id is the id of one of the tracks. */
  lemma ObjectIdsMembers(tracks: seq<Track>)
    ensures forall id :: id in ObjectIds(tracks) ==> exists i :: 0 <= i < |tracks| && tracks[i].trackId == id
  {
    forall id | id in ObjectIds(tracks)
      ensures exists i :: 0 <= i < |tracks| && tracks[i].trackId == id
    {
      var t :| t in tracks && t.trackId == id;
      var i :| 0 <= i < |tracks| && tracks[i] == t;
    }
  }

  /** Appending a track adds its id to the object ids. */
  lemma ObjectIdsSnoc(init: seq<Track>, last: Track)
    ensures ObjectIds(init + [last]) == ObjectIds(init) + {last.trackId}
  {
    var tracks := init + [last];
    forall id | id in ObjectIds(tracks)
      ensures id in ObjectIds(init) + {last.trackId}
    {
      var t :| t in tracks && t.trackId == id;
      if t != last {
        assert t in init;
      }
    }
    forall id | id in ObjectIds(init)
      ensures id in ObjectIds(tracks)
    {
      var t :| t in init && t.trackId == id;
      assert t in tracks;
    }
    assert last in tracks;
  }

  /** The ids the tracker reports, in its order. */
  function TrackIds(tracks: seq<Track>): (ids: seq<TrackId>)
    ensures |ids| == |tracks|
    ensures forall i :: 0 <= i < |tracks| ==> ids[i] == tracks[i].trackId
  {
    seq(|tracks|, i requires 0 <= i < |tracks| => tracks[i].trackId)
  }

  /** No two tracks share an id. */
  ghost predicate DistinctIds(tracks: seq<Track>)
  {
    Distinct(TrackIds(tracks))
  }

  /** There are never more object ids than tracks (`num_object`), and exactly
      as many when the tracker reports each id once. */
  lemma {:induction false} ObjectIdsCount(tracks: seq<Track>)
    ensures |ObjectIds(tracks)| <= |tracks|
    ensures DistinctIds(tracks) ==> |ObjectIds(tracks)| == |tracks|
    decreases |tracks|
  {
    if tracks != [] {
      var init := tracks[..|tracks| - 1];
      var last := tracks[|tracks| - 1];
      ObjectIdsCount(init);
      assert tracks == init + [last];
      ObjectIdsSnoc(init, last);
      if DistinctIds(tracks) {
        assert DistinctIds(init);
        forall k | 0 <= k < |init|
          ensures init[k].trackId != last.trackId
        {
          assert init[k] == tracks[k];
        }
        assert last.trackId !in ObjectIds(init);
      }
    }
  }

  /** The predictions `get_low_confidence_objects` builds, one per result. */
  function LowConfidencePredictions(frameId: int, results: seq<Detection.Detection>,
                                    classNames: map<int, string>): (ps: seq<Prediction>)
    ensures |ps| == |results|
  {
    seq(|results|, i requires 0 <= i < |results| =>
      NewPrediction(frameId, LtwhToLtrb(results[i].ltwh), Some(results[i].confidence), results[i].classId, classNames))
  }

  /** `get_low_confidence_objects`: one prediction per low-confidence result, in
      input order, stamped with the frame id, its box turned into corners. */
  method GetLowConfidenceObjects(frameId: int, lowConfidenceResults: seq<Detection.Detection>,
                                 classNames: map<int, string>)
    returns (lowConfidenceObjects: seq<Prediction>)
    ensures lowConfidenceObjects == LowConfidencePredictions(frameId, lowConfidenceResults, classNames)
    ensures forall i :: 0 <= i < |lowConfidenceObjects| ==>
      && lowConfidenceObjects[i].frameId == frameId
      && LtrbToLtwh(lowConfidenceObjects[i].ltrb) == lowConfidenceResults[i].ltwh
      && lowConfidenceObjects[i].confidence == Some(lowConfidenceResults[i].confidence)
      && lowConfidenceObjects[i].classId == lowConfidenceResults[i].classId
      && NameResolved(lowConfidenceObjects[i], classNames)
  {
    lowConfidenceObjects := [];
    var i := 0;
    while i < |lowConfidenceResults|
      invariant 0 <= i <= |lowConfidenceResults|
      invariant lowConfidenceObjects == LowConfidencePredictions(frameId, lowConfidenceResults[..i], classNames)
    {
      var res := lowConfidenceResults[i];
      var curPred := NewPrediction(frameId, LtwhToLtrb(res.ltwh), Some(res.confidence), res.classId, classNames);
      lowConfidenceObjects := lowConfidenceObjects + [curPred];
      i := i + 1;
    }
    assert lowConfidenceResults[..i] == lowConfidenceResults;
    forall i | 0 <= i < |lowConfidenceObjects|
      ensures LtrbToLtwh(lowConfidenceObjects[i].ltrb) == lowConfidenceResults[i].ltwh
    {
      LtwhRoundTrip(lowConfidenceResults[i].ltwh);
    }
  }

  /** `TrackedFrame.__init__`. */
  method NewTrackedFrame(frameId: int, frame: Frame, tracks: seq<Track>,
                         lowConfidenceResults: seq<Detection.Detection>, classNames: map<int, string>)
    returns (tf: TrackedFrame)
    ensures tf.frameId == frameId && tf.frame == frame && tf.tracks == tracks
    ensures tf.numObject == |tracks| && tf.objectIds == ObjectIds(tracks)
    ensures tf.lowConfidenceObjects == LowConfidencePredictions(frameId, lowConfidenceResults, classNames)
  {
    var low := GetLowConfidenceObjects(frameId, lowConfidenceResults, classNames);
    tf := TrackedFrame(frameId, tracks, frame, |tracks|, ObjectIds(tracks), low);
  }

  // ---------------------------------------------------------------------------
  // The aggregates as values

  /** Track id -> (frame id -> prediction): `all_objects`. */
  type Objects = map<TrackId, map<int, Prediction>>

  /** Frame id -> predictions of tracked objects: `all_frames`. */
  type Frames = map<int, seq<Prediction>>

  /** The prediction `update_all_objects_dict` builds from one track. */
  function TrackPrediction(frameId: int, t: Track, classNames: map<int, string>): Prediction
  {
    NewPrediction(frameId, t.ltrb, t.detConf, t.detClass, classNames)
  }

  /** `all_objects[id].update({frame_id: p})` on a `defaultdict(dict)`. */
  function Upsert(objects: Objects, id: TrackId, frameId: int, p: Prediction): Objects
  {
    objects[id := (if id in objects then objects[id] else map[])[frameId := p]]
  }

  /** `all_frames[frame_id].append(p)` on a `defaultdict(list)`. */
  function Append(frames: Frames, frameId: int, p: Prediction): Frames
  {
    frames[frameId := (if frameId in frames then frames[frameId] else []) + [p]]
  }

  /** `all_objects` after the loop of `update_all_objects_dict` over `tracks`. */
  function ObjectsAfter(objects: Objects, frameId: int, tracks: seq<Track>,
                        classNames: map<int, string>): Objects
    decreases |tracks|
  {
    if tracks == [] then objects
    else
      var last := tracks[|tracks| - 1];
      Upsert(ObjectsAfter(objects, frameId, tracks[..|tracks| - 1], classNames),
             last.trackId, frameId, TrackPrediction(frameId, last, classNames))
  }

  /** Every prediction filed under frame `f` of an object's history was made
      for frame `f` and carries its resolved class name. */
  ghost predicate ObjectsValid(objects: Objects, classNames: map<int, string>)
  {
    forall id, f :: id in objects && f in objects[id] ==>
      objects[id][f].frameId == f && NameResolved(objects[id][f], classNames)
  }

  /** Every prediction listed under frame `f` was made for frame `f` and
      carries its resolved class name. */
  ghost predicate FramesValid(frames: Frames, classNames: map<int, string>)
  {
    forall f, i :: f in frames && 0 <= i < |frames[f]| ==>
      frames[f][i].frameId == f && NameResolved(frames[f][i], classNames)
  }

  lemma UpsertValid(objects: Objects, id: TrackId, frameId: int, p: Prediction, classNames: map<int, string>)
    requires ObjectsValid(objects, classNames)
    requires p.frameId == frameId && NameResolved(p, classNames)
    ensures ObjectsValid(Upsert(objects, id, frameId, p), classNames)
  {
  }

  lemma AppendValid(frames: Frames, frameId: int, p: Prediction, classNames: map<int, string>)
    requires FramesValid(frames, classNames)
    requires p.frameId == frameId && NameResolved(p, classNames)
    ensures FramesValid(Append(frames, frameId, p), classNames)
  {
  }

  /** `all_frames` after the loop of `update_all_objects_dict` over `tracks`. */
  function FramesAfter(frames: Frames, frameId: int, tracks: seq<Track>,
                       classNames: map<int, string>): Frames
    decreases |tracks|
  {
    if tracks == [] then frames
    else
      var last := tracks[|tracks| - 1];
      Append(FramesAfter(frames, frameId, tracks[..|tracks| - 1], classNames),
             frameId, TrackPrediction(frameId, last, classNames))
  }

  /** The predictions of a frame's tracks, in tracker order. */
  function FramePredictions(frameId: int, tracks: seq<Track>, classNames: map<int, string>): (ps: seq<Prediction>)
    ensures |ps| == |tracks|
  {
    seq(|tracks|, i requires 0 <= i < |tracks| => TrackPrediction(frameId, tracks[i], classNames))
  }

  /** The ids of the objects after a frame are the earlier ids plus the ids of
      the frame's tracks. */
  lemma {:induction false} ObjectsAfterKeys(objects: Objects, frameId: int, tracks: seq<Track>,
                                            classNames: map<int, string>)
    ensures ObjectsAfter(objects, frameId, tracks, classNames).Keys == objects.Keys + ObjectIds(tracks)
    decreases |tracks|
  {
    if tracks != [] {
      var init := tracks[..|tracks| - 1];
      ObjectsAfterKeys(objects, frameId, init, classNames);
      assert tracks == init + [tracks[|tracks| - 1]];
      ObjectIdsSnoc(init, tracks[|tracks| - 1]);
    }
  }

  /** The frame ids of one object after a frame: its earlier ids, plus this
      frame id exactly when one of the frame's tracks carries its id. */
  lemma {:induction false} ObjectsAfterHistoryKeys(objects: Objects, frameId: int, tracks: seq<Track>,
                                                   classNames: map<int, string>, id: TrackId)
    requires id in ObjectsAfter(objects, frameId, tracks, classNames)
    ensures forall g :: g in ObjectsAfter(objects, frameId, tracks, classNames)[id] <==>
      (id in objects && g in objects[id]) || (g == frameId && id in ObjectIds(tracks))
    decreases |tracks|
  {
    if tracks != [] {
      var init := tracks[..|tracks| - 1];
      var last := tracks[|tracks| - 1];
      var prev := ObjectsAfter(objects, frameId, init, classNames);
      assert tracks == init + [last];
      ObjectIdsSnoc(init, last);
      ObjectsAfterKeys(objects, frameId, init, classNames);
      if id in prev {
        ObjectsAfterHistoryKeys(objects, frameId, init, classNames, id);
      }
    }
  }

  /** The entries of one object for other frame ids are those it had before;
      an object none of whose tracks is in the frame keeps its whole history. */
  lemma {:induction false} ObjectsAfterHistoryKept(objects: Objects, frameId: int, tracks: seq<Track>,
                                                   classNames: map<int, string>, id: TrackId)
    requires id in objects
    ensures id in ObjectsAfter(objects, frameId, tracks, classNames)
    ensures forall g :: g in objects[id] && g != frameId ==>
      g in ObjectsAfter(objects, frameId, tracks, classNames)[id]
      && ObjectsAfter(objects, frameId, tracks, classNames)[id][g] == objects[id][g]
    ensures id !in ObjectIds(tracks) ==> ObjectsAfter(objects, frameId, tracks, classNames)[id] == objects[id]
    decreases |tracks|
  {
    if tracks != [] {
      var init := tracks[..|tracks| - 1];
      var last := tracks[|tracks| - 1];
      assert tracks == init + [last];
      ObjectIdsSnoc(init, last);
      ObjectsAfterHistoryKept(objects, frameId, init, classNames, id);
    }
  }

  /** Every track of the frame leaves its prediction under its own id and this
      frame id; when an id repeats, the last track with that id wins. */
  lemma {:induction false} ObjectsAfterLastWins(objects: Objects, frameId: int, tracks: seq<Track>,
                                                classNames: map<int, string>, i: int)
    requires 0 <= i < |tracks|
    requires forall j :: i < j < |tracks| ==> tracks[j].trackId != tracks[i].trackId
    ensures var r := ObjectsAfter(objects, frameId, tracks, classNames);
      && tracks[i].trackId in r
      && frameId in r[tracks[i].trackId]
      && r[tracks[i].trackId][frameId] == TrackPrediction(frameId, tracks[i], classNames)
    decreases |tracks|
  {
    if i < |tracks| - 1 {
      var init := tracks[..|tracks| - 1];
      ObjectsAfterLastWins(objects, frameId, init, classNames, i);
    }
  }

  /** `all_frames[frame_id]` grows by one prediction per track, in tracker order,
      duplicates kept; no other frame's list changes, and a frame without tracks
      does not even gain a key. */
  lemma {:induction false} FramesAfterSpec(frames: Frames, frameId: int, tracks: seq<Track>,
                                           classNames: map<int, string>)
    ensures var r := FramesAfter(frames, frameId, tracks, classNames);
      && r.Keys == frames.Keys + (if tracks == [] then {} else {frameId})
      && (forall g :: g in frames && g != frameId ==> r[g] == frames[g])
      && (tracks != [] ==> r[frameId] == (if frameId in frames then frames[frameId] else []) + FramePredictions(frameId, tracks, classNames))
    decreases |tracks|
  {
    if tracks != [] {
      var init := tracks[..|tracks| - 1];
      FramesAfterSpec(frames, frameId, init, classNames);
      if init == [] {
        assert FramePredictions(frameId, init, classNames) == [];
      }
      assert FramePredictions(frameId, tracks, classNames)
          == FramePredictions(frameId, init, classNames) + [TrackPrediction(frameId, tracks[|tracks| - 1], classNames)];
    }
  }

  /** Every object has at least one observation. */
  ghost predicate AllTracksNonEmpty(objects: Objects)
  {
    forall id :: id in objects ==> objects[id] != map[]
  }

  /** Ingesting a frame never leaves an object without observations. */
  lemma {:induction false} ObjectsAfterNonEmpty(objects: Objects, frameId: int, tracks: seq<Track>,
                                                classNames: map<int, string>)
    requires AllTracksNonEmpty(objects)
    ensures AllTracksNonEmpty(ObjectsAfter(objects, frameId, tracks, classNames))
    decreases |tracks|
  {
    if tracks != [] {
      var init := tracks[..|tracks| - 1];
      var last := tracks[|tracks| - 1];
      var prev := ObjectsAfter(objects, frameId, init, classNames);
      var r := ObjectsAfter(objects, frameId, tracks, classNames);
      ObjectsAfterNonEmpty(objects, frameId, init, classNames);
      forall id | id in r
        ensures r[id] != map[]
      {
        if id == last.trackId {
          assert frameId in r[id];
        } else {
          assert r[id] == prev[id];
        }
      }
    }
  }

  // ---------------------------------------------------------------------------
  // TrackedFrameCollection

  /** What a frame id resolves to when an object is exported. */
  datatype ExportedFrame = ExportedFrame(frameId: int, frame: Frame, prediction: Prediction)

  /** `min` of an empty history raises `ValueError`; indexing `tracked_frames`
      with a frame id that is not a list position raises `IndexError`. */
  datatype ExportError = EmptyHistory | FrameIndexError(frameId: int)

  /** The frame ids of exported frames, in export order. */
  function FrameIds(items: seq<ExportedFrame>): (ids: seq<int>)
    ensures |ids| == |items|
    ensures forall i :: 0 <= i < |items| ==> ids[i] == items[i].frameId
  {
    seq(|items|, i requires 0 <= i < |items| => items[i].frameId)
  }

  /** What the frame selection of `export_object` promises for one history:
      an empty history raises; otherwise the history's frame ids are visited
      exactly once each, in ascending order, each resolved to its prediction and
      to the frame stored at that list position, until a frame id that is not a
      position of `tracked_frames` raises. */
  ghost predicate ExportSelection(history: map<int, Prediction>, trackedFrames: seq<TrackedFrame>,
                                  r: Result<seq<ExportedFrame>, ExportError>)
  {
    && (r == Err(EmptyHistory) <==> history == map[])
    && (r.Ok? ==>
          var items := r.value;
          && (forall i, j :: 0 <= i < j < |items| ==> items[i].frameId < items[j].frameId)
          && (forall f :: f in history <==> f in FrameIds(items))
          && (forall i :: 0 <= i < |items| ==>
                && items[i].frameId in history
                && items[i].prediction == history[items[i].frameId]
                && PyIndex(trackedFrames, items[i].frameId).Some?
                && PyIndex(trackedFrames, items[i].frameId).value.frame == items[i].frame))
    && (r.Err? && r.error.FrameIndexError? ==>
          var f := r.error.frameId;
          && f in history
          && PyIndex(trackedFrames, f).None?
          && (forall g :: g in history && g < f ==> PyIndex(trackedFrames, g).Some?))
  }

  /** The loop state of `export_object` once every frame id below `frameId`
      has been visited: the exported frames are those ids of the history, in
      ascending order, each resolved to its prediction and frame. */
  ghost predicate SelectedBelow(history: map<int, Prediction>, trackedFrames: seq<TrackedFrame>,
                                items: seq<ExportedFrame>, frameId: int)
  {
    && (forall i, j :: 0 <= i < j < |items| ==> items[i].frameId < items[j].frameId)
    && (forall i :: 0 <= i < |items| ==>
          && items[i].frameId in history
          && items[i].frameId < frameId
          && items[i].prediction == history[items[i].frameId]
          && PyIndex(trackedFrames, items[i].frameId).Some?
          && PyIndex(trackedFrames, items[i].frameId).value.frame == items[i].frame)
    && (forall f :: f in history && f < frameId ==> f in FrameIds(items))
    && (forall f :: f in history && f < frameId ==> PyIndex(trackedFrames, f).Some?)
  }

  /** Skipping a frame id that is not in the history keeps the loop state. */
  lemma SelectedBelowSkip(history: map<int, Prediction>, trackedFrames: seq<TrackedFrame>,
                          items: seq<ExportedFrame>, frameId: int)
    requires SelectedBelow(history, trackedFrames, items, frameId) && frameId !in history
    ensures SelectedBelow(history, trackedFrames, items, frameId + 1)
  {
  }

  /** Exporting the frame of a frame id of the history keeps the loop state. */
  lemma SelectedBelowAppend(history: map<int, Prediction>, trackedFrames: seq<TrackedFrame>,
                            items: seq<ExportedFrame>, frameId: int)
    requires SelectedBelow(history, trackedFrames, items, frameId)
    requires frameId in history && PyIndex(trackedFrames, frameId).Some?
    ensures SelectedBelow(history, trackedFrames,
                          items + [ExportedFrame(frameId, PyIndex(trackedFrames, frameId).value.frame, history[frameId])],
                          frameId + 1)
  {
    var items' := items + [ExportedFrame(frameId, PyIndex(trackedFrames, frameId).value.frame, history[frameId])];
    assert FrameIds(items') == FrameIds(items) + [frameId];
  }

  /** Past the largest frame id, the loop state is a complete selection. */
  lemma SelectedBelowDone(history: map<int, Prediction>, trackedFrames: seq<TrackedFrame>,
                          items: seq<ExportedFrame>)
    requires history != map[]
    requires SelectedBelow(history, trackedFrames, items, Max(history.Keys) + 1)
    ensures ExportSelection(history, trackedFrames, Ok(items))
  {
    forall f | f in FrameIds(items) ensures f in history {
      var i :| 0 <= i < |items| && FrameIds(items)[i] == f;
    }
  }

  /** The loop of `export_object`: `for frame_id in range(min, max + 1)`,
      skipping ids absent from the history and reading
      `tracked_frames[frame_id].frame` for the others. */
  method SelectExportFrames(history: map<int, Prediction>, trackedFrames: seq<TrackedFrame>)
    returns (r: Result<seq<ExportedFrame>, ExportError>)
    ensures ExportSelection(history, trackedFrames, r)
  {
    if history == map[] {
      return Err(EmptyHistory);
    }
    var startIdx, endIdx := Min(history.Keys), Max(history.Keys);
    var items: seq<ExportedFrame> := [];
    var frameId := startIdx;
    while frameId < endIdx + 1
      invariant startIdx <= frameId <= endIdx + 1
      invariant SelectedBelow(history, trackedFrames, items, frameId)
    {
      if frameId in history {
        var tracked := PyIndex(trackedFrames, frameId);
        if tracked.None? {
          return Err(FrameIndexError(frameId));
        }
        SelectedBelowAppend(history, trackedFrames, items, frameId);
        items := items + [ExportedFrame(frameId, tracked.value.frame, history[frameId])];
      } else {
        SelectedBelowSkip(history, trackedFrames, items, frameId);
      }
      frameId := frameId + 1;
    }
    SelectedBelowDone(history, trackedFrames, items);
    r := Ok(items);
  }

  /** `TrackedFrameCollection`. The video capture and output folder are only
      used for export I/O and are not part of this model. */
  class TrackedFrameCollection {
    const classNames: map<int, string>
    var trackedFrames: seq<TrackedFrame>
    var allObjects: Objects
    var allFrames: Frames

    /** Every stored prediction sits under its own frame id and carries the
        class name the table gives its class. */
    ghost predicate Valid()
      reads this
    {
      ObjectsValid(allObjects, classNames) && FramesValid(allFrames, classNames)
    }

    /** `TrackedFrameCollection.__init__`. */
    constructor (classNames: map<int, string>)
      ensures Valid()
      ensures this.classNames == classNames
      ensures trackedFrames == [] && allObjects == map[] && allFrames == map[]
    {
      this.classNames := classNames;
      trackedFrames := [];
      allObjects := map[];
      allFrames := map[];
    }

    /** `add_tracked_frame`: appends the frame, then folds its tracks into both
        aggregates. */
    method AddTrackedFrame(trackedFrame: TrackedFrame)
      requires Valid()
      modifies this`trackedFrames, this`allObjects, this`allFrames
      ensures Valid()
      ensures trackedFrames == old(trackedFrames) + [trackedFrame]
      ensures allObjects == ObjectsAfter(old(allObjects), trackedFrame.frameId, trackedFrame.tracks, classNames)
      ensures allFrames == FramesAfter(old(allFrames), trackedFrame.frameId, trackedFrame.tracks, classNames)
      ensures AllTracksNonEmpty(old(allObjects)) ==> AllTracksNonEmpty(allObjects)
    {
      trackedFrames := trackedFrames + [trackedFrame];
      UpdateAllObjectsDict(trackedFrame);
      if AllTracksNonEmpty(old(allObjects)) {
        ObjectsAfterNonEmpty(old(allObjects), trackedFrame.frameId, trackedFrame.tracks, classNames);
      }
    }

    /** `update_all_objects_dict`: for each track in tracker order, upserts its
        prediction into the object's history and appends it to the frame's list. */
    method UpdateAllObjectsDict(trackedFrame: TrackedFrame)
      requires Valid()
      modifies this`allObjects, this`allFrames
      ensures Valid()
      ensures allObjects == ObjectsAfter(old(allObjects), trackedFrame.frameId, trackedFrame.tracks, classNames)
      ensures allFrames == FramesAfter(old(allFrames), trackedFrame.frameId, trackedFrame.tracks, classNames)
    {
      var tracks := trackedFrame.tracks;
      var i := 0;
      while i < |tracks|
        invariant 0 <= i <= |tracks|
        invariant Valid()
        invariant allObjects == ObjectsAfter(old(allObjects), trackedFrame.frameId, tracks[..i], classNames)
        invariant allFrames == FramesAfter(old(allFrames), trackedFrame.frameId, tracks[..i], classNames)
      {
        AddTrack(trackedFrame.frameId, tracks[i]);
        assert tracks[..i + 1][..i] == tracks[..i];
        i := i + 1;
      }
      assert tracks[..i] == tracks;
    }

    /** One pass of the loop of `update_all_objects_dict`. */
    method AddTrack(frameId: int, track: Track)
      requires Valid()
      modifies this`allObjects, this`allFrames
      ensures Valid()
      ensures allObjects == Upsert(old(allObjects), track.trackId, frameId, TrackPrediction(frameId, track, classNames))
      ensures allFrames == Append(old(allFrames), frameId, TrackPrediction(frameId, track, classNames))
    {
      var curPred := NewPrediction(frameId, track.ltrb, track.detConf, track.detClass, classNames);
      UpsertValid(allObjects, track.trackId, frameId, curPred, classNames);
      AppendValid(allFrames, frameId, curPred, classNames);
      var curDict := if track.trackId in allObjects then allObjects[track.trackId] else map[];
      allObjects := allObjects[track.trackId := curDict[frameId := curPred]];
      var curList := if frameId in allFrames then allFrames[frameId] else [];
      allFrames := allFrames[frameId := curList + [curPred]];
    }

    /** `get_frame_predictions`: reading `all_frames[frame_id]` inserts an empty
        list for an unseen frame id (a `defaultdict` read) before
        `tracked_frames[frame_id]` is indexed, which may raise `IndexError`
        (`None` here); negative ids count from the end of the list. */
    method GetFramePredictions(frameId: int) returns (r: Option<(seq<Prediction>, seq<Prediction>)>)
      requires Valid()
      modifies this`allFrames
      ensures Valid()
      ensures allFrames == if frameId in old(allFrames) then old(allFrames) else old(allFrames)[frameId := []]
      ensures r.Some? <==> -|trackedFrames| <= frameId < |trackedFrames|
      ensures r.Some? ==> r.value.0 == allFrames[frameId]
      ensures r.Some? ==> r.value.1 == PyIndex(trackedFrames, frameId).value.lowConfidenceObjects
    {
      if frameId !in allFrames {
        allFrames := allFrames[frameId := []];
      }
      var highConfidenceObjects := allFrames[frameId];
      var tracked := PyIndex(trackedFrames, frameId);
      if tracked.None? {
        return None;
      }
      r := Some((highConfidenceObjects, tracked.value.lowConfidenceObjects));
    }

    /** `export_object` up to the writing of frames: reading
        `all_objects[object_id]` inserts an empty history for an unseen id (a
        `defaultdict` read), then the frames of that history are selected. */
    method ExportObjectFrames(objectId: TrackId) returns (r: Result<seq<ExportedFrame>, ExportError>)
      requires Valid()
      modifies this`allObjects
      ensures Valid()
      ensures allObjects == if objectId in old(allObjects) then old(allObjects) else old(allObjects)[objectId := map[]]
      ensures ExportSelection(allObjects[objectId], trackedFrames, r)
    {
      if objectId !in allObjects {
        allObjects := allObjects[objectId := map[]];
      }
      r := SelectExportFrames(allObjects[objectId], trackedFrames);
    }
  }
}
