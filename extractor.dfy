/**
 * The per-video extractor: it reads the decoded frames one at a time, always
 * writes the first one, and writes each later frame whose similarity to the
 * last written frame is below the threshold, naming each file after the
 * frame's timestamp.
 *
 * The decoder is a VideoCapture over the sequence of frames it decodes before
 * its first failed read; the similarity score is the parameter `sim`; each
 * `cv2.imwrite` is a Written record appended to the FrameRipper's `written`.
 */
module Extractor {

  import opened Wrappers
  import opened Timestamp
  import opened Naming
  import opened Selection
  import opened Decimal

  /** The threshold used when the caller passes none. */
  const DifferenceThreshold: real := 0.17

  /** One image write: the path and the frame written there. */
  datatype Written<F> = Written(path: string, frame: F)

  /** How one extraction ends. */
  datatype Outcome =
    | Summary(framesProcessed: nat, length: FrameTime)  // the closing summary line
    | Unreadable     // the first read failed: a silent return
    | InvalidName    // the video name is empty: `with_name` raises ValueError
    | ZeroFrameRate  // a second frame with fps 0: the division raises ZeroDivisionError

  /** The timestamp frame `i` is written under; the first frame's is the literal 0h0m0s0. */
  function TimeOf(i: nat, fps: real): FrameTime
    requires i == 0 || fps != 0.0
  {
    if i == 0 then Zero else FrameTimeAt(i, fps)
  }

  /** The write of frame `i` into `folder`, for the video named `name`. */
  function WriteOf<F>(folder: string, name: string, frames: seq<F>, i: nat, fps: real): Written<F>
    requires i < |frames| && (i == 0 || fps != 0.0)
  {
    Written(FramePath(folder, name, TimeOf(i, fps)), frames[i])
  }

  /** The writes of the frames with indices `kept`, in order. */
  function Writes<F>(folder: string, name: string, frames: seq<F>, kept: seq<nat>, fps: real): (w: seq<Written<F>>)
    requires forall k :: 0 <= k < |kept| ==> kept[k] < |frames| && (kept[k] == 0 || fps != 0.0)
    ensures |w| == |kept|
  {
    seq(|kept|, k requires 0 <= k < |kept| => WriteOf(folder, name, frames, kept[k], fps))
  }

  /**
   * The writes made once the first `n` frames have been scanned: those of the
   * kept frames. With a zero frame rate only the first frame is ever scanned.
   */
  function KeptWrites<F>(folder: string, name: string, frames: seq<F>, n: nat, fps: real,
                         sim: (F, F) -> real, threshold: real): seq<Written<F>>
    requires 1 <= n <= |frames| && (fps == 0.0 ==> n == 1)
  {
    KeptIncreasing(frames, n, sim, threshold);
    Writes(folder, name, frames, Kept(frames, n, sim, threshold), fps)
  }

  /** Scanning one more frame appends its write exactly when the frame is kept. */
  lemma KeptWritesStep<F>(folder: string, name: string, frames: seq<F>, n: nat, fps: real,
                          sim: (F, F) -> real, threshold: real)
    requires 1 <= n < |frames| && fps != 0.0
    ensures var prev, next := KeptWrites(folder, name, frames, n, fps, sim, threshold),
                              KeptWrites(folder, name, frames, n + 1, fps, sim, threshold);
      next == if sim(frames[n], Reference(frames, n, sim, threshold)) < threshold
              then prev + [WriteOf(folder, name, frames, n, fps)] else prev
  {
  }

  /** Every run that reads a frame writes it first, under the literal name `{video_name}-0h0m0s0.png`. */
  lemma FirstWrite<F>(folder: string, name: string, frames: seq<F>, n: nat, fps: real,
                      sim: (F, F) -> real, threshold: real)
    requires 1 <= n <= |frames| && (fps == 0.0 ==> n == 1)
    ensures var w := KeptWrites(folder, name, frames, n, fps, sim, threshold);
      |w| >= 1 && w[0] == Written(folder + "/" + name + "-0h0m0s0.png", frames[0])
  {
  }

  /** The reference is always the frame of the latest write, never a discarded candidate. */
  lemma LastWriteIsReference<F>(folder: string, name: string, frames: seq<F>, n: nat, fps: real,
                                sim: (F, F) -> real, threshold: real)
    requires 1 <= n <= |frames| && (fps == 0.0 ==> n == 1)
    ensures var w := KeptWrites(folder, name, frames, n, fps, sim, threshold);
      |w| >= 1 && Last(w).frame == Reference(frames, n, sim, threshold)
  {
    KeptIncreasing(frames, n, sim, threshold);
  }

  /**
   * At most 1000 frames per second, no two writes of a run share a path, so
   * no written frame is overwritten by a later one.
   */
  lemma DistinctPaths<F>(folder: string, name: string, frames: seq<F>, n: nat, fps: real,
                         sim: (F, F) -> real, threshold: real)
    requires 1 <= n <= |frames| && 0.0 < fps <= 1000.0
    ensures var w := KeptWrites(folder, name, frames, n, fps, sim, threshold);
      forall k, l :: 0 <= k < l < |w| ==> w[k].path != w[l].path
  {
    var kept := Kept(frames, n, sim, threshold);
    KeptIncreasing(frames, n, sim, threshold);
    var w := KeptWrites(folder, name, frames, n, fps, sim, threshold);
    forall k, l | 0 <= k < l < |w|
      ensures w[k].path != w[l].path
    {
      var i, j := kept[k], kept[l];
      assert i < j;
      FirstFrameAtZero(fps);
      assert TimeOf(i, fps) == FrameTimeAt(i, fps) && TimeOf(j, fps) == FrameTimeAt(j, fps);
      MillisIncrease(i, j, fps);
      SameTimeIffSameMillis(i, j, fps);
      FramePathInjective(folder, name, TimeOf(i, fps), TimeOf(j, fps));
    }
  }

  /** Frame 10 of a 10 fps video is written under `{name}-0h0m1s0.png`. */
  lemma TenthFramePath(folder: string, name: string)
    ensures FramePath(folder, name, TimeOf(10, 10.0)) == folder + "/" + name + "-0h0m1s0.png"
  {
    TenthFrameAtTenFps();
    assert IntText(0) == "0" && IntText(1) == "1";
    assert TimeText(FrameTime(0, 0, 1, 0)) == "0h0m1s0";
  }

  /**
   * A 30-frame video whose frames 1-9 match frame 0, whose frame 10 does not,
   * and whose frames 11-29 match frame 10: frames 0 and 10 are written.
   */
  ghost predicate TwoScenes<F>(frames: seq<F>, sim: (F, F) -> real, threshold: real) {
    && |frames| == 30
    && (forall j :: 1 <= j < 10 ==> threshold <= sim(frames[j], frames[0]))
    && sim(frames[10], frames[0]) < threshold
    && (forall j :: 11 <= j < 30 ==> threshold <= sim(frames[j], frames[10]))
  }

  lemma TwoScenesKept<F>(frames: seq<F>, sim: (F, F) -> real, threshold: real)
    requires TwoScenes(frames, sim, threshold)
    ensures Kept(frames, 30, sim, threshold) == [0, 10]
  {
    SteadyRun(frames, 1, 10, sim, threshold);
    assert Kept(frames, 11, sim, threshold) == [0, 10];
    SteadyRun(frames, 11, 30, sim, threshold);
  }

  /** At 10 fps those two scenes give exactly two files, at 0h0m0s0 and 0h0m1s0. */
  lemma TenFpsScenario<F>(folder: string, name: string, frames: seq<F>, sim: (F, F) -> real, threshold: real)
    requires TwoScenes(frames, sim, threshold)
    ensures var w := KeptWrites(folder, name, frames, 30, 10.0, sim, threshold);
      && |w| == 2
      && w[0] == Written(folder + "/" + name + "-0h0m0s0.png", frames[0])
      && w[1] == Written(folder + "/" + name + "-0h0m1s0.png", frames[10])
  {
    TwoScenesKept(frames, sim, threshold);
    FirstWrite(folder, name, frames, 30, 10.0, sim, threshold);
    TenthFramePath(folder, name);
  }

  /** How many frames a scan gets through before it ends or raises. */
  function Scanned(count: nat, fps: real): nat {
    if fps == 0.0 then 1 else count
  }

  /**
   * The timestamp in the closing summary after `n` frames: that of the last
   * frame timestamped, or 0h0m0s0 when only the first frame was read.
   */
  function Length(n: nat, fps: real): FrameTime
    requires n == 1 || fps != 0.0
  {
    if n <= 1 then Zero else FrameTimeAt(n - 1, fps)
  }

  /** The decoder: yields `frames` in order, then fails every read. */
  class VideoCapture<F> {
    const frames: seq<F>
    const fps: real  // CAP_PROP_FPS
    var position: nat

    ghost predicate Valid()
      reads this
    {
      position <= |frames|
    }

    constructor (frames: seq<F>, fps: real)
      ensures Valid() && this.frames == frames && this.fps == fps && position == 0
    {
      this.frames, this.fps, position := frames, fps, 0;
    }

    /** `video.read()`: the next frame, or failure once all have been read. */
    method Read() returns (valid: bool, frame: Option<F>)
      requires Valid()
      modifies this
      ensures Valid()
      ensures valid == (old(position) < |frames|)
      ensures valid ==> frame == Some(frames[old(position)]) && position == old(position) + 1
      ensures !valid ==> frame == None && position == old(position)
    {
      if position < |frames| {
        valid, frame := true, Some(frames[position]);
        position := position + 1;
      } else {
        valid, frame := false, None;
      }
    }
  }

  /**
   * `get_unique_frames` for one video file. `folderExists` is the output
   * folder on disk, which outlives a run; `written` is the sequence of image
   * writes of the latest run; `lastUnique`, `count` and `time` are the
   * reference frame, the frame counter and the last timestamp computed.
   */
  class FrameRipper<F> {
    const videoFile: string
    var folderExists: bool
    var written: seq<Written<F>>
    var lastUnique: Option<F>
    var count: nat
    var time: FrameTime

    /** The reference is always the frame of the latest write, never a discarded candidate. */
    ghost predicate ReferenceIsLastWritten()
      reads this
    {
      lastUnique.Some? ==> written != [] && lastUnique.value == Last(written).frame
    }

    constructor (videoFile: string)
      ensures this.videoFile == videoFile && !folderExists && written == []
      ensures lastUnique == None && count == 0 && time == Zero
    {
      this.videoFile := videoFile;
      folderExists, written := false, [];
      lastUnique, count, time := None, 0, Zero;
    }

    method GetUniqueFrames(frames: seq<F>, fps: real, sim: (F, F) -> real, threshold: real := DifferenceThreshold)
        returns (outcome: Outcome)
      modifies this
      ensures ReferenceIsLastWritten()
      ensures VideoName(videoFile) == [] ==>
        outcome == InvalidName && folderExists == old(folderExists) && written == []
      ensures VideoName(videoFile) != [] && frames == [] ==>
        outcome == Unreadable && folderExists == old(folderExists) && written == [] && count == 0
      ensures VideoName(videoFile) != [] && frames != [] ==>
        && folderExists
        && written == KeptWrites(ImagesFolder(videoFile), VideoName(videoFile), frames, Scanned(|frames|, fps), fps, sim, threshold)
        && lastUnique == Some(Reference(frames, Scanned(|frames|, fps), sim, threshold))
      ensures outcome == ZeroFrameRate <==> VideoName(videoFile) != [] && |frames| >= 2 && fps == 0.0
      ensures outcome == ZeroFrameRate ==> count == 1
      ensures outcome.Summary? <==> VideoName(videoFile) != [] && frames != [] && (fps != 0.0 || |frames| == 1)
      ensures outcome.Summary? ==> outcome == Summary(count, time) && count == |frames| && time == Length(|frames|, fps)
    {
      written, lastUnique, count, time := [], None, 0, Zero;
      var videoName := VideoName(videoFile);
      if videoName == [] {
        return InvalidName;
      }
      var imagesFolder := ImagesFolder(videoFile);
      var video := new VideoCapture(frames, fps);
      var valid, frame := video.Read();
      if !valid {
        return Unreadable;
      }
      folderExists := true;  // mkdir, where an existing folder is no error
      // the literal name `{video_name}-0h0m0s0.png` (FirstFrameFileName)
      written := [Written(FramePath(imagesFolder, videoName, Zero), frame.value)];
      lastUnique := frame;
      outcome := ScanRest(video, imagesFolder, videoName, threshold, sim);
      LastWriteIsReference(imagesFolder, videoName, frames, Scanned(|frames|, fps), fps, sim, threshold);
    }

    /**
     * What holds before each test of `while valid_frame`: frame `count` is in
     * hand when `valid`, the writes are those of the frames kept among the
     * first `count`, the last of them is the reference, and `time` is the
     * timestamp of frame `count - 1`.
     */
    ghost predicate Scanning(video: VideoCapture<F>, folder: string, name: string, threshold: real,
                             sim: (F, F) -> real, valid: bool, frame: Option<F>)
      reads this, video
    {
      && video.Valid()
      && 1 <= count <= |video.frames| && (video.fps == 0.0 ==> count == 1)
      && (valid <==> count < |video.frames|)
      && (valid ==> frame == Some(video.frames[count]) && video.position == count + 1)
      && written == KeptWrites(folder, name, video.frames, count, video.fps, sim, threshold)
      && lastUnique == Some(Reference(video.frames, count, sim, threshold))
      && time == Length(count, video.fps)
    }

    /**
     * The rest of `get_unique_frames` once the first frame is written: the
     * second read, then the loop over every later frame.
     */
    method ScanRest(video: VideoCapture<F>, folder: string, name: string, threshold: real, sim: (F, F) -> real)
        returns (outcome: Outcome)
      requires video.Valid() && video.position == 1
      requires written == KeptWrites(folder, name, video.frames, 1, video.fps, sim, threshold)
      requires lastUnique == Some(video.frames[0]) && count == 0
      modifies this`written, this`lastUnique, this`count, this`time, video
      ensures written == KeptWrites(folder, name, video.frames, Scanned(|video.frames|, video.fps), video.fps, sim, threshold)
      ensures lastUnique == Some(Reference(video.frames, Scanned(|video.frames|, video.fps), sim, threshold))
      ensures outcome == ZeroFrameRate <==> |video.frames| >= 2 && video.fps == 0.0
      ensures outcome == ZeroFrameRate ==> count == 1
      ensures outcome != ZeroFrameRate ==>
        outcome == Summary(count, time) && count == |video.frames| && time == Length(|video.frames|, video.fps)
    {
      var valid, frame := video.Read();
      count := count + 1;
      time := Zero;
      while valid
        invariant Scanning(video, folder, name, threshold, sim, valid, frame)
        decreases |video.frames| - count
      {
        if video.fps == 0.0 {
          return ZeroFrameRate;
        }
        valid, frame := Advance(video, folder, name, threshold, sim, frame.value);
      }
      return Summary(count, time);
    }

    /**
     * One pass of the loop body: frame `count` is timestamped and considered,
     * then the counter moves on and the next frame is read.
     */
    method Advance(video: VideoCapture<F>, folder: string, name: string, threshold: real, sim: (F, F) -> real, frame: F)
        returns (valid: bool, next: Option<F>)
      requires Scanning(video, folder, name, threshold, sim, true, Some(frame)) && video.fps != 0.0
      modifies this`written, this`lastUnique, this`count, this`time, video
      ensures Scanning(video, folder, name, threshold, sim, valid, next)
      ensures count == old(count) + 1
    {
      time := FrameTimeAt(count, video.fps);
      Consider(video, folder, name, threshold, sim, frame);
      count := count + 1;
      valid, next := video.Read();
    }

    /**
     * Frame `count`, stamped `time`, is compared with the reference; when it
     * scores below the threshold it is written and becomes the reference.
     */
    method Consider(video: VideoCapture<F>, folder: string, name: string, threshold: real, sim: (F, F) -> real, frame: F)
      requires 1 <= count < |video.frames| && frame == video.frames[count] && video.fps != 0.0
      requires written == KeptWrites(folder, name, video.frames, count, video.fps, sim, threshold)
      requires lastUnique == Some(Reference(video.frames, count, sim, threshold))
      requires time == TimeOf(count, video.fps)
      modifies this`written, this`lastUnique
      ensures written == KeptWrites(folder, name, video.frames, count + 1, video.fps, sim, threshold)
      ensures lastUnique == Some(Reference(video.frames, count + 1, sim, threshold))
    {
      var similarity := sim(frame, lastUnique.value);
      KeptWritesStep(folder, name, video.frames, count, video.fps, sim, threshold);
      ReferenceStep(video.frames, count, sim, threshold);
      if similarity < threshold {
        assert Written(FramePath(folder, name, time), frame) == WriteOf(folder, name, video.frames, count, video.fps);
        written := written + [Written(FramePath(folder, name, time), frame)];
        lastUnique := Some(frame);
      }
    }
  }
}
