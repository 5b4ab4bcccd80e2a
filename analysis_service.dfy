/**
 * The video-processing service of the analysis side (`services.py`): finding a video's file
 * from its database record, and the loop of `process_video` that samples frames, keeps the
 * frames where a pose was found and tracks the largest x and y coordinates.
 *
 * The database, the file system, the video reader and the pose detector are inputs: the
 * result of the record lookup, the set of files that exist, whether the capture opened,
 * its duration, the frames it yields in order, and the detector as a function of a frame.
 */
module AnalysisService {
  import opened Wrappers
  import opened Paths
  import opened AnalysisModels
  import Storage

  // ---------------------------------------------------------------- get_video_path

  /** The video record as far as the service reads it: its `filename` entry, if any. */
  datatype VideoDocument = VideoDocument(filename: Option<string>)

  /** What `find_one` did: raised (a bad id, a database error) or returned a record or nothing. */
  datatype Lookup = LookupRaised(message: string) | Found(document: Option<VideoDocument>)

  /** The names of a path list without "." entries. */
  function WithoutDots(names: seq<string>): (r: seq<string>)
    ensures forall k :: 0 <= k < |r| ==> r[k] != "."
    ensures |r| <= |names|
    decreases |names|
  {
    if names == [] then []
    else
      var last := names[|names| - 1];
      WithoutDots(names[..|names| - 1]) + (if last == "." then [] else [last])
  }

  /** `pathlib.Path(s)`: like a `java.nio` path, except that "." entries are dropped at once. */
  function PurePath(s: string): (p: Path)
    ensures p.absolute <==> |s| > 0 && s[0] == '/'
    ensures "." !in p.segments
  {
    Path(|s| > 0 && s[0] == '/', WithoutDots(Segments(s)))
  }

  /** `Path(storage) / filename`: an absolute filename replaces the storage directory. */
  function Join(storagePath: string, filename: string): (r: Path)
    ensures r.absolute <==> PurePath(storagePath).absolute || PurePath(filename).absolute
    ensures PurePath(filename).absolute ==> r == PurePath(filename)
    ensures !PurePath(filename).absolute ==>
      r.segments == PurePath(storagePath).segments + PurePath(filename).segments
    ensures "." !in r.segments
  {
    Resolve(PurePath(storagePath), PurePath(filename))
  }

  /** The filename of the record found, when the record exists and its filename is not empty. */
  function RecordedFilename(lookup: Lookup): (r: Option<string>)
    ensures r.Some? ==> r.value != "" && lookup == Found(Some(VideoDocument(Some(r.value))))
    ensures r.None? ==>
      lookup.LookupRaised? || lookup.document.None? || lookup.document.value.filename in {None, Some("")}
  {
    if lookup.Found? && lookup.document.Some? && lookup.document.value.filename.Some?
       && lookup.document.value.filename.value != ""
    then Some(lookup.document.value.filename.value)
    else None
  }

  /**
   * `get_video_path`: the joined path when the record exists, names a file, and that file
   * exists; nothing otherwise, including when the lookup raised. `existing` holds the files
   * that exist, keyed as the operating system reaches them from `cwd`.
   */
  function GetVideoPath(lookup: Lookup, storagePath: string, cwd: seq<string>, existing: set<Path>)
    : (r: Option<Path>)
    ensures lookup.LookupRaised? ==> r.None?
    ensures r.Some? <==>
      RecordedFilename(lookup).Some? &&
      Storage.FileKey(Join(storagePath, RecordedFilename(lookup).value), cwd) in existing
    ensures r.Some? ==> r.value == Join(storagePath, RecordedFilename(lookup).value)
  {
    match lookup
    case LookupRaised(_) => None
    case Found(document) =>
      if document.None? then None
      else
        var filename := document.value.filename;
        if filename.None? || filename.value == "" then None
        else
          var videoPath := Join(storagePath, filename.value);
          if Storage.FileKey(videoPath, cwd) !in existing then None
          else Some(videoPath)
  }

  /** Dropping "." entries, as `pathlib` does, never changes what `normalize` makes of a path. */
  lemma {:induction false} NormFromIgnoresDots(absolute: bool, acc: seq<string>, names: seq<string>)
    ensures NormFrom(absolute, acc, WithoutDots(names)) == NormFrom(absolute, acc, names)
    decreases |names|
  {
    if names != [] {
      var init := names[..|names| - 1];
      var last := names[|names| - 1];
      NormFromIgnoresDots(absolute, acc, init);
      var w := WithoutDots(names);
      if last == "." {
        assert w == WithoutDots(init);
        assert NormFrom(absolute, acc, names) == Step(absolute, NormFrom(absolute, acc, init), ".");
      } else {
        assert w == WithoutDots(init) + [last];
        assert w[..|w| - 1] == WithoutDots(init);
        assert NormFrom(absolute, acc, w) == Step(absolute, NormFrom(absolute, acc, WithoutDots(init)), last);
      }
    }
  }

  /**
   * A record's file is found exactly when the file under the `java.nio` reading of the same
   * string exists: the "." entries `pathlib` drops make no difference to the lookup.
   */
  lemma PurePathReachesSameFile(s: string, cwd: seq<string>)
    ensures Storage.FileKey(PurePath(s), cwd) == Storage.FileKey(Parse(s), cwd)
  {
    var p := Parse(s);
    if p.absolute {
      NormFromIgnoresDots(true, [], p.segments);
    } else {
      var base := NormFrom(true, [], cwd);
      NormFromAppend(true, [], cwd, WithoutDots(p.segments));
      NormFromIgnoresDots(true, base, p.segments);
      NormFromAppend(true, [], cwd, p.segments);
    }
  }

  /** A found record whose filename is one name locates the file directly in the storage directory. */
  lemma FoundNameUnderStorage(lookup: Lookup, storagePath: string, cwd: seq<string>, existing: set<Path>)
    requires GetVideoPath(lookup, storagePath, cwd, existing).Some?
    requires '/' !in RecordedFilename(lookup).value && RecordedFilename(lookup).value != "."
    ensures var storage := PurePath(storagePath);
      GetVideoPath(lookup, storagePath, cwd, existing).value
        == Path(storage.absolute, storage.segments + [RecordedFilename(lookup).value])
  {
    var filename := RecordedFilename(lookup).value;
    SegmentsOfName(filename);
    assert [filename][..0] == [];
    assert WithoutDots([filename]) == [filename];
  }

  // ---------------------------------------------------------------- process_video

  const VideoNotFoundMessage := "Video not found"
  const OpenFailedMessage := "Failed to open video file"

  /**
   * Why processing failed. `TooLong` stands for the message quoting both durations, whose
   * float formatting is not modelled; every other failure carries its message.
   */
  datatype ProcessError = Message(text: string) | TooLong(duration: real, maxDuration: real)

  /** The dictionary `process_video` returns, by its `success` entry. */
  datatype ProcessResult =
    | Processed(analysisId: string, framesProcessed: nat, totalFrames: nat, duration: real, maxX: real, maxY: real)
    | Failed(error: ProcessError)

  /** The sampling interval after the clamp: never below one. */
  function FrameSkip(rawFrameSkip: int): (skip: nat)
    ensures skip >= 1
    ensures rawFrameSkip >= 1 ==> skip == rawFrameSkip
    ensures rawFrameSkip < 1 ==> skip == 1
  {
    if rawFrameSkip < 1 then 1 else rawFrameSkip
  }

  /** The indices below `n` that are multiples of `skip`, in increasing order. */
  function Samples(n: nat, skip: nat): (r: seq<nat>)
    requires skip >= 1
    ensures forall i :: 0 <= i < |r| ==> r[i] < n && r[i] % skip == 0
    ensures forall k: nat :: k < n && k % skip == 0 ==> k in r
    ensures forall i, j :: 0 <= i < j < |r| ==> r[i] < r[j]
    decreases n
  {
    if n == 0 then []
    else Samples(n - 1, skip) + (if (n - 1) % skip == 0 then [n - 1] else [])
  }

  /** Whether the detector found a pose: an empty landmark dictionary counts as none, as in Python. */
  predicate Detected(landmarks: Option<Landmarks>)
    ensures Detected(landmarks) <==> landmarks.Some? && exists name :: name in landmarks.value
  {
    landmarks.Some? && landmarks.value != map[]
  }

  /**
   * The text of the exception raised by the first sampled frame, among the first `n`, whose
   * timestamp cannot be computed, if any. `stamp` gives a frame's timestamp text, or the text
   * of the exception computing it raises: with an fps of zero `frame_count / fps` raises
   * "float division by zero", and with a negative fps `datetime.min` minus a duration overflows.
   */
  function StampFailure(n: nat, skip: nat, stamp: nat -> Result<string, string>): (r: Option<string>)
    requires skip >= 1
    ensures r.None? <==> forall k: nat :: k < n && k % skip == 0 ==> stamp(k).Success?
    decreases n
  {
    if n == 0 then None
    else
      var prior := StampFailure(n - 1, skip, stamp);
      if prior.Some? then prior
      else if (n - 1) % skip == 0 && stamp(n - 1).Failure? then Some(stamp(n - 1).error)
      else None
  }

  /** The failure reported is that of the earliest sampled frame whose timestamp raises. */
  lemma {:induction false} StampFailureIsFirst(n: nat, skip: nat, stamp: nat -> Result<string, string>)
    requires skip >= 1 && StampFailure(n, skip, stamp).Some?
    ensures exists k: nat ::
      && k < n && k % skip == 0 && stamp(k) == Failure(StampFailure(n, skip, stamp).value)
      && (forall j: nat :: j < k && j % skip == 0 ==> stamp(j).Success?)
    decreases n
  {
    if StampFailure(n - 1, skip, stamp).Some? {
      StampFailureIsFirst(n - 1, skip, stamp);
    } else {
      assert stamp(n - 1) == Failure(StampFailure(n, skip, stamp).value);
    }
  }

  /** Once a sampled frame's timestamp has failed, reading more frames does not change which failure it was. */
  lemma {:induction false} StampFailureSticks(n: nat, m: nat, skip: nat, stamp: nat -> Result<string, string>)
    requires skip >= 1 && n <= m && StampFailure(n, skip, stamp).Some?
    ensures StampFailure(m, skip, stamp) == StampFailure(n, skip, stamp)
    decreases m
  {
    if n < m {
      StampFailureSticks(n, m - 1, skip, stamp);
    }
  }

  /**
   * Frame 0 is always sampled, so a video with a frame whose first timestamp fails (an fps of
   * zero) fails with that exception, whatever the sampling interval.
   */
  lemma FirstFrameAlwaysStamped(n: nat, skip: nat, stamp: nat -> Result<string, string>)
    requires skip >= 1 && n > 0 && stamp(0).Failure?
    ensures StampFailure(n, skip, stamp) == Some(stamp(0).error)
  {
    assert StampFailure(1, skip, stamp) == Some(stamp(0).error);
    StampFailureSticks(1, n, skip, stamp);
  }

  /**
   * The frames the analysis keeps from the first `n` frames read: those at multiples of
   * `skip` where a pose was detected, each with its timestamp and landmarks, in order.
   */
  function Analysed<Frame>(frames: seq<Frame>, skip: nat, n: nat, detect: Frame -> Option<Landmarks>,
                           stamp: nat -> Result<string, string>): (r: seq<FrameAnalysis>)
    requires skip >= 1 && n <= |frames| && StampFailure(n, skip, stamp).None?
    ensures |r| <= |Samples(n, skip)|
    ensures forall i :: 0 <= i < |r| ==> r[i].landmarks != map[]
    decreases n
  {
    if n == 0 then []
    else
      var k := n - 1;
      Analysed(frames, skip, k, detect, stamp)
        + (if k % skip == 0 && Detected(detect(frames[k])) then [FrameAnalysis(stamp(k).value, detect(frames[k]).value)] else [])
  }

  datatype Axis = X | Y

  function Coord(l: LandmarkData, axis: Axis): real {
    match axis
    case X => l.x
    case Y => l.y
  }

  predicate BoundsAll(m: real, landmarks: Landmarks, axis: Axis) {
    forall name :: name in landmarks ==> Coord(landmarks[name], axis) <= m
  }

  predicate AttainedIn(m: real, landmarks: Landmarks, axis: Axis) {
    exists name :: name in landmarks && Coord(landmarks[name], axis) == m
  }

  /**
   * `m` is the running maximum started at 0.0 over every landmark of `frames` along `axis`:
   * at least 0, at least every coordinate, and either 0 or one of the coordinates.
   */
  predicate IsMax(m: real, frames: seq<FrameAnalysis>, axis: Axis) {
    && 0.0 <= m
    && (forall i :: 0 <= i < |frames| ==> BoundsAll(m, frames[i].landmarks, axis))
    && (m == 0.0 || exists i :: 0 <= i < |frames| && AttainedIn(m, frames[i].landmarks, axis))
  }

  /** The running maximum is determined by the frames: two values that both qualify are equal. */
  lemma MaxIsUnique(a: real, b: real, frames: seq<FrameAnalysis>, axis: Axis)
    requires IsMax(a, frames, axis) && IsMax(b, frames, axis)
    ensures a == b
  {
    if a != 0.0 {
      var i :| 0 <= i < |frames| && AttainedIn(a, frames[i].landmarks, axis);
      assert BoundsAll(b, frames[i].landmarks, axis);
    }
    if b != 0.0 {
      var i :| 0 <= i < |frames| && AttainedIn(b, frames[i].landmarks, axis);
      assert BoundsAll(a, frames[i].landmarks, axis);
    }
  }

  /** Adding a frame whose landmarks the new maximum bounds, and attains unless unchanged, keeps `IsMax`. */
  lemma MaxExtends(m0: real, m: real, frames: seq<FrameAnalysis>, frame: FrameAnalysis, axis: Axis)
    requires IsMax(m0, frames, axis)
    requires m0 <= m && BoundsAll(m, frame.landmarks, axis)
    requires m == m0 || AttainedIn(m, frame.landmarks, axis)
    ensures IsMax(m, frames + [frame], axis)
  {
    var all := frames + [frame];
    forall i | 0 <= i < |all|
      ensures BoundsAll(m, all[i].landmarks, axis)
    {
      if i < |frames| {
        assert all[i] == frames[i];
        assert BoundsAll(m0, frames[i].landmarks, axis);
      }
    }
    if m != 0.0 {
      if m == m0 {
        var i :| 0 <= i < |frames| && AttainedIn(m, frames[i].landmarks, axis);
        assert all[i] == frames[i];
      } else {
        assert all[|frames|] == frame;
      }
    }
  }

  /**
   * The inner loop over one frame's landmarks: raises the running maxima to every x and y.
   * Each result is the old value or one of the frame's coordinates.
   */
  method RaiseMax(maxX0: real, maxY0: real, landmarks: Landmarks) returns (maxX: real, maxY: real)
    ensures maxX0 <= maxX && BoundsAll(maxX, landmarks, X) && (maxX == maxX0 || AttainedIn(maxX, landmarks, X))
    ensures maxY0 <= maxY && BoundsAll(maxY, landmarks, Y) && (maxY == maxY0 || AttainedIn(maxY, landmarks, Y))
  {
    maxX, maxY := maxX0, maxY0;
    var rest := landmarks.Keys;
    while rest != {}
      invariant rest <= landmarks.Keys
      invariant maxX0 <= maxX && maxY0 <= maxY
      invariant forall name :: name in landmarks && name !in rest ==> landmarks[name].x <= maxX
      invariant forall name :: name in landmarks && name !in rest ==> landmarks[name].y <= maxY
      invariant maxX == maxX0 || AttainedIn(maxX, landmarks, X)
      invariant maxY == maxY0 || AttainedIn(maxY, landmarks, Y)
      decreases |rest|
    {
      var name :| name in rest;
      var landmark := landmarks[name];
      if landmark.x > maxX {
        maxX := landmark.x;
      }
      if landmark.y > maxY {
        maxY := landmark.y;
      }
      rest := rest - {name};
    }
  }

  /**
   * The body of `if landmarks:`: raise the maxima over the frame's landmarks, then append
   * the frame to the analysis. The maxima stay those of the longer frame list.
   */
  method KeepFrame(analysis: VideoAnalysis, frameAnalysis: FrameAnalysis, maxX: real, maxY: real)
    returns (newX: real, newY: real)
    requires IsMax(maxX, analysis.data, X) && IsMax(maxY, analysis.data, Y)
    modifies analysis`data
    ensures analysis.data == old(analysis.data) + [frameAnalysis]
    ensures IsMax(newX, analysis.data, X) && IsMax(newY, analysis.data, Y)
  {
    newX, newY := RaiseMax(maxX, maxY, frameAnalysis.landmarks);
    MaxExtends(maxX, newX, analysis.data, frameAnalysis, X);
    MaxExtends(maxY, newY, analysis.data, frameAnalysis, Y);
    analysis.AddFrameAnalysis(frameAnalysis);
  }

  /**
   * One turn of the `while` loop, over frame `k`: when the frame is sampled, compute its
   * timestamp, which may raise, run the detector, and keep the frame when a pose was found.
   * After a failure the frame list is left unspecified: `process_video` discards the analysis.
   */
  method ReadFrame<Frame>(analysis: VideoAnalysis, frames: seq<Frame>, k: nat, frameSkip: nat,
                          detect: Frame -> Option<Landmarks>, stamp: nat -> Result<string, string>,
                          processedCount: nat, maxX: real, maxY: real)
    returns (failure: Option<string>, newCount: nat, newX: real, newY: real)
    requires frameSkip >= 1 && k < |frames| && StampFailure(k, frameSkip, stamp).None?
    requires analysis.data == Analysed(frames, frameSkip, k, detect, stamp) && processedCount == |analysis.data|
    requires IsMax(maxX, analysis.data, X) && IsMax(maxY, analysis.data, Y)
    modifies analysis`data
    ensures failure == StampFailure(k + 1, frameSkip, stamp)
    ensures failure.None? ==>
      && analysis.data == Analysed(frames, frameSkip, k + 1, detect, stamp)
      && newCount == |analysis.data|
      && IsMax(newX, analysis.data, X) && IsMax(newY, analysis.data, Y)
  {
    failure, newCount, newX, newY := None, processedCount, maxX, maxY;
    if k % frameSkip == 0 {
      var timestamp := stamp(k);
      if timestamp.Failure? {
        return Some(timestamp.error), newCount, newX, newY;
      }
      var landmarks := detect(frames[k]);
      if Detected(landmarks) {
        newX, newY := KeepFrame(analysis, FrameAnalysis(timestamp.value, landmarks.value), maxX, maxY);
        newCount := newCount + 1;
      }
    }
  }

  /**
   * The `while` loop of `process_video` over a fresh analysis: reads every frame, passes the
   * frames at multiples of `frameSkip` to the detector, appends those with a pose, and keeps
   * the running maxima. `examined` lists the indices passed to the detector. A timestamp that
   * raises ends the loop with its exception, `failure`; the frame list, the counts and the
   * maxima are then left unspecified, since `process_video` discards them.
   */
  method SampleFrames<Frame>(analysis: VideoAnalysis, frames: seq<Frame>, frameSkip: nat,
                             detect: Frame -> Option<Landmarks>, stamp: nat -> Result<string, string>)
    returns (failure: Option<string>, frameCount: nat, processedCount: nat, maxX: real, maxY: real,
             ghost examined: seq<nat>)
    requires frameSkip >= 1 && analysis.data == []
    modifies analysis`data
    ensures failure == StampFailure(|frames|, frameSkip, stamp)
    ensures failure.None? ==> frameCount == |frames|
    ensures failure.None? ==>
      && examined == Samples(|frames|, frameSkip)
      && analysis.data == Analysed(frames, frameSkip, |frames|, detect, stamp)
      && processedCount == |analysis.data|
      && IsMax(maxX, analysis.data, X) && IsMax(maxY, analysis.data, Y)
  {
    failure := None;
    frameCount, processedCount := 0, 0;
    maxX, maxY := 0.0, 0.0;
    examined := [];
    while true
      invariant frameCount <= |frames|
      invariant failure.None? && StampFailure(frameCount, frameSkip, stamp).None?
      invariant examined == Samples(frameCount, frameSkip)
      invariant analysis.data == Analysed(frames, frameSkip, frameCount, detect, stamp)
      invariant processedCount == |analysis.data|
      invariant IsMax(maxX, analysis.data, X) && IsMax(maxY, analysis.data, Y)
      decreases |frames| - frameCount
    {
      if frameCount == |frames| {
        break;
      }
      failure, processedCount, maxX, maxY :=
        ReadFrame(analysis, frames, frameCount, frameSkip, detect, stamp, processedCount, maxX, maxY);
      if failure.Some? {
        StampFailureSticks(frameCount + 1, |frames|, frameSkip, stamp);
        return;
      }
      if frameCount % frameSkip == 0 {
        examined := examined + [frameCount];
      }
      frameCount := frameCount + 1;
    }
  }

  /** The checks before the loop all pass: the file was found, it opened, and it is not too long. */
  predicate Proceeds(videoPath: Option<Path>, captureOpened: bool, duration: real, maxDuration: real) {
    videoPath.Some? && captureOpened && duration <= maxDuration
  }

  /**
   * `process_video`. `frames` are the frames the capture yields before its first failed
   * read, `detect` the pose detector, `stamp` the timestamp text of a frame index or the
   * exception computing it raises,
   * `createdAt` the analysis's creation time, and `insertion` what `insert_one` did: the new
   * document's id, or the text of the exception it raised. `inserted` is the document handed
   * to `insert_one`; `examined` lists the frame indices passed to the detector.
   */
  method ProcessVideo<Frame>(
    videoId: string, lookup: Lookup, storagePath: string, cwd: seq<string>, existing: set<Path>,
    captureOpened: bool, duration: real, maxDuration: real, rawFrameSkip: int,
    frames: seq<Frame>, detect: Frame -> Option<Landmarks>, stamp: nat -> Result<string, string>,
    createdAt: string, insertion: Result<string, string>)
    returns (r: ProcessResult, inserted: Option<Dict>, ghost examined: seq<nat>)
    ensures var videoPath := GetVideoPath(lookup, storagePath, cwd, existing);
      && (videoPath.None? ==> r == Failed(Message(VideoNotFoundMessage)))
      && (videoPath.Some? && !captureOpened ==> r == Failed(Message(OpenFailedMessage)))
      && (videoPath.Some? && captureOpened && duration > maxDuration ==> r == Failed(TooLong(duration, maxDuration)))
      && (inserted.Some? <==> Proceeds(videoPath, captureOpened, duration, maxDuration) &&
                              StampFailure(|frames|, FrameSkip(rawFrameSkip), stamp).None?)
    // a timestamp that raises fails the processing with its text, and nothing is stored
    ensures Proceeds(GetVideoPath(lookup, storagePath, cwd, existing), captureOpened, duration, maxDuration) &&
            StampFailure(|frames|, FrameSkip(rawFrameSkip), stamp).Some? ==>
      r == Failed(Message(StampFailure(|frames|, FrameSkip(rawFrameSkip), stamp).value))
    ensures Proceeds(GetVideoPath(lookup, storagePath, cwd, existing), captureOpened, duration, maxDuration) &&
            StampFailure(|frames|, FrameSkip(rawFrameSkip), stamp).None? ==>
      var skip := FrameSkip(rawFrameSkip);
      var kept := Analysed(frames, skip, |frames|, detect, stamp);
      var document := inserted.value;
      && examined == Samples(|frames|, skip)
      && document.Keys == DocumentKeys
      && document["video_id"] == Text(videoId) && document["created_at"] == Text(createdAt)
      && document["total_frames"] == Integer(|kept|)
      && document["data"].Array? && DecodeFrames(document["data"].items) == Some(kept)
      && document["max_x"].Number? && IsMax(document["max_x"].number, kept, X)
      && document["max_y"].Number? && IsMax(document["max_y"].number, kept, Y)
      && r == match insertion {
           case Success(id) =>
             Processed(id, |kept|, |frames|, duration, document["max_x"].number, document["max_y"].number)
           case Failure(message) => Failed(Message(message))
         }
  {
    examined := [];
    var videoPath := GetVideoPath(lookup, storagePath, cwd, existing);
    if videoPath.None? {
      return Failed(Message(VideoNotFoundMessage)), None, examined;
    }
    if !captureOpened {
      return Failed(Message(OpenFailedMessage)), None, examined;
    }
    if duration > maxDuration {
      return Failed(TooLong(duration, maxDuration)), None, examined;
    }
    var frameSkip := FrameSkip(rawFrameSkip);
    var analysis := new VideoAnalysis(videoId, None, createdAt);
    var failure, frameCount, processedCount, maxX, maxY;
    failure, frameCount, processedCount, maxX, maxY, examined := SampleFrames(analysis, frames, frameSkip, detect, stamp);
    if failure.Some? {
      return Failed(Message(failure.value)), None, examined;
    }
    analysis.maxX := maxX;
    analysis.maxY := maxY;
    var document := analysis.ToDict();
    inserted := Some(document);
    match insertion
    case Success(analysisId) =>
      r := Processed(analysisId, processedCount, frameCount, duration, maxX, maxY);
    case Failure(message) =>
      r := Failed(Message(message));
  }

  /** No more frames are kept than were sampled, and no more are sampled than were read. */
  lemma KeptWithinSampled<Frame>(frames: seq<Frame>, skip: nat, detect: Frame -> Option<Landmarks>,
                                stamp: nat -> Result<string, string>)
    requires skip >= 1 && StampFailure(|frames|, skip, stamp).None?
    ensures |Analysed(frames, skip, |frames|, detect, stamp)| <= |Samples(|frames|, skip)| <= |frames|
  {
    SamplesBound(|frames|, skip);
  }

  lemma {:induction false} SamplesBound(n: nat, skip: nat)
    requires skip >= 1
    ensures |Samples(n, skip)| <= n
  {
    if n > 0 {
      SamplesBound(n - 1, skip);
    }
  }
}
