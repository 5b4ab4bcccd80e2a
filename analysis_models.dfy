/**
 * The analysis documents of the video-analysis service (`models.py`): landmarks, frames
 * and the per-video analysis, with their dictionary form as stored in MongoDB.
 */
module AnalysisModels {
  import opened Wrappers

  /** A dictionary value as built by the `to_dict` methods. */
  datatype Value =
    | Text(text: string)
    | Number(number: real)
    | Integer(integer: int)
    | Object(fields: map<string, Value>)
    | Array(items: seq<Value>)

  type Dict = map<string, Value>

  const LandmarkKeys: set<string> := {"x", "y", "z", "visibility"}
  const FrameKeys: set<string> := {"timestamp", "landmarks"}
  const DocumentKeys: set<string> := {"video_id", "data", "created_at", "total_frames", "max_x", "max_y"}

  /** One pose landmark. Coordinates are reals; floating point is not modelled. */
  datatype LandmarkData = LandmarkData(x: real, y: real, z: real, visibility: real) {
    function ToDict(): (d: Dict)
      ensures d.Keys == LandmarkKeys
      ensures d["x"] == Number(x) && d["y"] == Number(y)
      ensures d["z"] == Number(z) && d["visibility"] == Number(visibility)
    {
      map["x" := Number(x)]["y" := Number(y)]["z" := Number(z)]["visibility" := Number(visibility)]
    }
  }

  type Landmarks = map<string, LandmarkData>

  /** The landmarks detected in one frame, named, with the frame's timestamp. */
  datatype FrameAnalysis = FrameAnalysis(timestamp: string, landmarks: Landmarks) {
    function ToDict(): (d: Dict)
      ensures d.Keys == FrameKeys
      ensures d["timestamp"] == Text(timestamp)
      ensures d["landmarks"].Object? && d["landmarks"].fields.Keys == landmarks.Keys
      ensures forall name :: name in landmarks ==>
        d["landmarks"].fields[name] == Object(landmarks[name].ToDict())
    {
      map["timestamp" := Text(timestamp)]["landmarks" := Object(LandmarkFields(landmarks))]
    }
  }

  predicate NumberAt(d: Dict, key: string) {
    key in d && d[key].Number?
  }

  /** Reads a landmark back from its dictionary; the inverse of `LandmarkData.ToDict`. */
  function LandmarkFromDict(d: Dict): (r: Option<LandmarkData>)
    ensures r.Some? <==> NumberAt(d, "x") && NumberAt(d, "y") && NumberAt(d, "z") && NumberAt(d, "visibility")
  {
    if NumberAt(d, "x") && NumberAt(d, "y") && NumberAt(d, "z") && NumberAt(d, "visibility") then
      Some(LandmarkData(d["x"].number, d["y"].number, d["z"].number, d["visibility"].number))
    else
      None
  }

  predicate LandmarkValue(v: Value) {
    v.Object? && LandmarkFromDict(v.fields).Some?
  }

  /** The `landmarks` entry of a frame: each landmark's dictionary under its name. */
  function LandmarkFields(landmarks: Landmarks): (fields: Dict)
    ensures fields.Keys == landmarks.Keys
    ensures forall name :: name in landmarks ==> fields[name] == Object(landmarks[name].ToDict())
  {
    map name | name in landmarks :: Object(landmarks[name].ToDict())
  }

  /** Reads the `landmarks` entry back, given that every entry is a landmark dictionary. */
  function DecodeLandmarks(fields: Dict): (landmarks: Landmarks)
    requires forall name :: name in fields ==> LandmarkValue(fields[name])
    ensures landmarks.Keys == fields.Keys
  {
    map name | name in fields :: assert LandmarkValue(fields[name]); LandmarkFromDict(fields[name].fields).value
  }

  /** Reads a frame back from its dictionary; the inverse of `FrameAnalysis.ToDict`. */
  function FrameFromDict(d: Dict): (r: Option<FrameAnalysis>)
    ensures r.Some? ==> "timestamp" in d && d["timestamp"] == Text(r.value.timestamp)
    ensures r.Some? ==>
      "landmarks" in d && d["landmarks"].Object? && d["landmarks"].fields.Keys == r.value.landmarks.Keys
  {
    if "timestamp" in d && d["timestamp"].Text? && "landmarks" in d && d["landmarks"].Object?
       && (forall name :: name in d["landmarks"].fields ==> LandmarkValue(d["landmarks"].fields[name]))
    then
      Some(FrameAnalysis(d["timestamp"].text, DecodeLandmarks(d["landmarks"].fields)))
    else
      None
  }

  /** The `data` list of an analysis document: the frames' dictionaries, in order. */
  function SerializeFrames(frames: seq<FrameAnalysis>): (r: seq<Value>)
    ensures |r| == |frames|
    ensures forall i :: 0 <= i < |frames| ==> r[i] == Object(frames[i].ToDict())
  {
    if frames == [] then []
    else SerializeFrames(frames[..|frames| - 1]) + [Object(frames[|frames| - 1].ToDict())]
  }

  /** Reads the `data` list back; the inverse of `SerializeFrames`. */
  function DecodeFrames(items: seq<Value>): (r: Option<seq<FrameAnalysis>>)
    ensures r.Some? ==> |r.value| == |items|
  {
    if items == [] then Some([])
    else
      var init := DecodeFrames(items[..|items| - 1]);
      var last := items[|items| - 1];
      if init.Some? && last.Object? && FrameFromDict(last.fields).Some? then
        Some(init.value + [FrameFromDict(last.fields).value])
      else
        None
  }

  /** A landmark survives the trip through its dictionary. */
  lemma LandmarkRoundTrip(l: LandmarkData)
    ensures LandmarkFromDict(l.ToDict()) == Some(l)
  {
  }

  /** A landmark dictionary with exactly the four keys is the dictionary of what it decodes to. */
  lemma LandmarkDictRoundTrip(d: Dict)
    requires d.Keys == LandmarkKeys && LandmarkFromDict(d).Some?
    ensures LandmarkFromDict(d).value.ToDict() == d
  {
    var e := LandmarkFromDict(d).value.ToDict();
    assert forall k :: k in d ==> k in e && e[k] == d[k];
  }

  /** A frame survives the trip through its dictionary. */
  lemma FrameRoundTrip(f: FrameAnalysis)
    ensures FrameFromDict(f.ToDict()) == Some(f)
  {
    LandmarksRoundTrip(f.landmarks);
  }

  /** A frame's landmarks survive the trip through the `landmarks` entry. */
  lemma LandmarksRoundTrip(landmarks: Landmarks)
    ensures forall name :: name in LandmarkFields(landmarks) ==> LandmarkValue(LandmarkFields(landmarks)[name])
    ensures DecodeLandmarks(LandmarkFields(landmarks)) == landmarks
  {
    var fields := LandmarkFields(landmarks);
    forall name | name in fields
      ensures LandmarkValue(fields[name])
      ensures LandmarkFromDict(fields[name].fields).value == landmarks[name]
    {
      LandmarkRoundTrip(landmarks[name]);
    }
  }

  /** The frames survive the trip through the `data` list. */
  lemma {:induction false} FramesRoundTrip(frames: seq<FrameAnalysis>)
    ensures DecodeFrames(SerializeFrames(frames)) == Some(frames)
  {
    if frames != [] {
      var init := frames[..|frames| - 1];
      var items := SerializeFrames(frames);
      assert items[..|items| - 1] == SerializeFrames(init);
      FramesRoundTrip(init);
      FrameRoundTrip(frames[|frames| - 1]);
      assert init + [frames[|frames| - 1]] == frames;
    }
  }

  /** Serialising one more frame appends exactly that frame's dictionary. */
  lemma SerializeAppend(frames: seq<FrameAnalysis>, f: FrameAnalysis)
    ensures SerializeFrames(frames + [f]) == SerializeFrames(frames) + [Object(f.ToDict())]
  {
    assert (frames + [f])[..|frames|] == frames;
  }

  /**
   * One video's analysis: the frames analysed so far, in the order they were added, and
   * the largest x and y seen. `createdAt` is the creation time as ISO text, an input here.
   */
  class VideoAnalysis {
    const videoId: string
    var data: seq<FrameAnalysis>
    const createdAt: string
    var maxX: real
    var maxY: real

    /** A missing or empty `data` argument starts an empty frame list. */
    constructor(videoId: string, data: Option<seq<FrameAnalysis>>, createdAt: string)
      ensures this.videoId == videoId && this.createdAt == createdAt
      ensures this.data == data.GetOr([])
      ensures data.None? ==> this.data == []
      ensures maxX == 0.0 && maxY == 0.0
    {
      this.videoId := videoId;
      this.data := data.GetOr([]);
      this.createdAt := createdAt;
      this.maxX := 0.0;
      this.maxY := 0.0;
    }

    /** `add_frame_analysis`: appends in place. */
    method AddFrameAnalysis(frameAnalysis: FrameAnalysis)
      modifies this`data
      ensures data == old(data) + [frameAnalysis]
      ensures |data| == |old(data)| + 1 && data[..|old(data)|] == old(data)
    {
      data := data + [frameAnalysis];
    }

    /**
     * `to_dict`: the document stored in MongoDB. It only reads the object. The frame count is
     * the length of `data`, the `data` entry holds each frame's dictionary in turn, and it
     * decodes back to exactly the frames, in order.
     */
    function ToDict(): (d: Dict)
      reads this
      ensures d.Keys == DocumentKeys
      ensures d["video_id"] == Text(videoId) && d["created_at"] == Text(createdAt)
      ensures d["total_frames"] == Integer(|data|)
      ensures d["data"].Array? && |d["data"].items| == |data|
      ensures forall i :: 0 <= i < |data| ==> d["data"].items[i] == Object(data[i].ToDict())
      ensures DecodeFrames(d["data"].items) == Some(data)
      ensures d["max_x"] == Number(maxX) && d["max_y"] == Number(maxY)
    {
      FramesRoundTrip(data);
      var items := SerializeFrames(data);
      map["video_id" := Text(videoId)]
        ["data" := Array(items)]
        ["created_at" := Text(createdAt)]
        ["total_frames" := Integer(|data|)]
        ["max_x" := Number(maxX)]
        ["max_y" := Number(maxY)]
    }
  }
}
