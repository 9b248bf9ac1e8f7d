# frame-ripper: unique-frame extraction, modelled in Dafny

frame-ripper saves the distinct frames of a video as PNG images.
`get_unique_frames` does this for one video file:
- It derives the video name from the file name: the part before the first `.`.
- It creates a folder of that name beside the video.
- It always writes the first decoded frame as `{name}-0h0m0s0.png`.
- It compares every later frame with the last frame it wrote, using OpenCV's normalised cross-correlation.
- It writes a later frame, and makes it the new reference, exactly when the score is strictly below the threshold (0.17 by default).
- Each file is named after the frame's timestamp `{h}h{m}m{s}s{ms}`.
- At the end it reports how many frames it counted and the last timestamp it computed.

The model has six modules:

- `Wrappers`: the `Option` type used for reads and parsers.
- `Decimal`: how Python's f-strings write an `int`, with a parser that reads the text back.
- `Timestamp`: the split of `count / fps` seconds into hours, minutes, seconds and milliseconds.
  - Python floats are reals. `int(x)` truncates toward zero.
  - Hours are whole **360**-second units, exactly as the program computes them. A frame six minutes in is stamped `1h6m0s0`.
  - The model keeps this divisor. It proves what it implies: a timestamp determines its millisecond count, and hours count 360 000 ms.
- `Naming`: the pieces of the output paths.
  - `Path.name` and `split('.')[0]`.
  - `with_name`, which gives the folder beside the video.
  - The frame file name, with a parser for it.
- `Selection`: `Kept(frames, n, sim, threshold)` is a pure specification of which of the first `n` frames are written. Its lemmas cover the selection rule, the reference, and the threshold extremes.
- `Extractor`:
  - The decoder is a `VideoCapture` class over the frames it decodes before its first failed read.
  - `FrameRipper` holds the state `get_unique_frames` updates: whether the folder exists, the image writes made, the reference frame, the frame counter and the last timestamp.
  - `GetUniqueFrames` takes the threshold as its last parameter, defaulting to `DifferenceThreshold` (0.17), as the program does.
  - `GetUniqueFrames` runs the bootstrap. The loop runs in `ScanRest`, with one pass per call of `Advance` and `Consider`.
  - Each method is proved against the specification functions `KeptWrites`, `Reference` and `Length`.

The model does not compute the similarity score. It is a parameter `sim(frame, reference)`, and the frame type is a type parameter. Each `cv2.imwrite` is a `Written(path, frame)` record.

The model handles two failures that Python raises as exceptions:
- An empty video name makes `with_name` raise `ValueError` before anything else happens. The model returns `InvalidName`.
- A zero frame rate makes the first loop pass raise `ZeroDivisionError` after the first frame is written. The model returns `ZeroFrameRate`.

With a zero frame rate and a one-frame video, the loop never runs. The summary is then produced normally.

## Model

| member | source | states |
|---|---|---|
| Decimal.IntText | frame-ripper.py:75 | `f"{n}"` for an int: a '-' for negatives, then the digits; ParseIntText reads it back |
| Decimal.NatTextDigits | frame-ripper.py:75 | the text of a natural number is a non-empty run of digits with no leading zero |
| Decimal.IntTextShape | frame-ripper.py:75 | an integer's text starts with '-' exactly when it is negative, and the rest is digits |
| Decimal.ParseNatText | frame-ripper.py:75 | reading digits back from a natural number's text gives the number |
| Decimal.ParseIntText | frame-ripper.py:75 | reading back the text `f"{n}"` gives `n`, for every integer |
| Decimal.IntTextInjective | frame-ripper.py:75 | two integers have the same text exactly when they are equal |
| Timestamp.ElapsedSeconds | frame-ripper.py:62 | `current_frame_count / fps`, defined for a non-zero frame rate (Python raises ZeroDivisionError otherwise); Millis and MillisIncrease state its properties |
| Timestamp.FrameTimeAt | frame-ripper.py:62-66 | the timestamp of frame `count`; FrameTimeAtBounds, MillisDecomposition and SameTimeIffSameMillis state what it is |
| Timestamp.Trunc | frame-ripper.py:63-66 | `int(x)` truncates toward zero: within one below a non-negative x, within one above a negative x |
| Timestamp.SplitSeconds | frame-ripper.py:63-66 | minutes and seconds are in [0,60) and milliseconds in [0,1000); hours are non-negative for non-negative time |
| Timestamp.FrameTimeAtBounds | frame-ripper.py:62-66 | at a positive frame rate no component is negative; m and s are below 60 and ms below 1000 |
| Timestamp.Millis | frame-ripper.py:66 | the whole milliseconds elapsed are the floor of `count / fps * 1000` |
| Timestamp.MillisDecomposition | frame-ripper.py:62-66 | ms = k mod 1000, s = k/1000 mod 60, m = k/60000 mod 60, h = k/360000, where k is the whole milliseconds elapsed |
| Timestamp.MillisFromTime | frame-ripper.py:62-66 | the whole milliseconds elapsed are 1000·(3600·(h div 10) + 60·m + s) + ms, so ten of the program's hours make one real hour |
| Timestamp.SameTimeIffSameMillis | frame-ripper.py:62-66 | two frames get the same timestamp exactly when they fall in the same millisecond |
| Timestamp.MillisIncrease | frame-ripper.py:62 | at most 1000 fps, a later frame falls in a strictly later millisecond |
| Timestamp.FirstFrameAtZero | frame-ripper.py:62-66 | frame 0 would be stamped 0h0m0s0 at any non-zero frame rate |
| Timestamp.SixMinutesStampedOneHour | frame-ripper.py:65 | with the 360 divisor, frame 360 at 1 fps is stamped 1h6m0s0 |
| Timestamp.TenthFrameAtTenFps | frame-ripper.py:62-66 | frame 10 at 10 fps is stamped 0h0m1s0 |
| Naming.NameStart | frame-ripper.py:27 | the last path component starts just after the last '/' and contains no '/' |
| Naming.FileName | frame-ripper.py:27 | `Path.name` is the '/'-free suffix that ends the path |
| Naming.FileNameIsLastComponent | frame-ripper.py:27 | `Path.name` is the whole last component: it is the whole path or follows a '/' |
| Naming.Parent | frame-ripper.py:28 | the path is its directory part, ending in '/' or empty, followed by its name |
| Naming.BeforeFirstDot | frame-ripper.py:27 | `split('.')[0]` is a prefix free of '.', followed by '.' unless it is the whole string |
| Naming.VideoName | frame-ripper.py:27 | the video name is the file name up to its first '.', with no '.' and no '/' |
| Naming.NameStartAfter | frame-ripper.py:28 | joining a directory and a '/'-free name puts the name start right after the directory |
| Naming.ImagesFolder | frame-ripper.py:28 | `video_path.with_name(video_name)`, defined for a non-empty name (Python raises ValueError otherwise); ImagesFolderBesideVideo places it |
| Naming.ImagesFolderBesideVideo | frame-ripper.py:28 | the output folder has the video's directory and the video name as its name |
| Naming.TimeText | frame-ripper.py:75 | the text `{h}h{m}m{s}s{ms}`; ParseTimeTextRoundTrip reads it back |
| Naming.FrameFileName | frame-ripper.py:75 | `{video_name}-{timestamp}.png`; FrameFileNameShape, ParseFrameFileNameRoundTrip and FrameFileNameInjective state it |
| Naming.FramePath | frame-ripper.py:75 | `images_folder.joinpath(file_name).as_posix()`; FramePathParts and FramePathInjective state it |
| Naming.NoSlashInTimeText | frame-ripper.py:75 | the timestamp text contains no '/' |
| Naming.FrameFileNameShape | frame-ripper.py:75 | a frame file name is the video name, '-', the timestamp and `.png`, with no '/' when the name has none |
| Naming.FramePathParts | frame-ripper.py:75 | every frame path lies directly in the output folder, under its frame file name |
| Naming.FirstFrameFileName | frame-ripper.py:44 | the frame file name at 0h0m0s0 is the literal `{video_name}-0h0m0s0.png` |
| Naming.SplitAtJoin | frame-ripper.py:75 | splitting at a delimiter absent from the prefix recovers prefix and rest |
| Naming.NotInIntText | frame-ripper.py:75 | a character other than a digit or '-' never occurs in integer text |
| Naming.ParseTimeTextRoundTrip | frame-ripper.py:75 | the text `{h}h{m}m{s}s{ms}` reads back to the timestamp |
| Naming.ParseFrameFileNameRoundTrip | frame-ripper.py:75 | a frame file name reads back to the timestamp it was made from |
| Naming.FrameFileNameInjective | frame-ripper.py:75 | frame file names of one video are equal exactly when their timestamps are |
| Naming.FramePathInjective | frame-ripper.py:75 | frame paths in one folder are equal exactly when their timestamps are |
| Selection.Kept | frame-ripper.py:39-76 | the written indices start with frame 0 (the first frame is always written) and the last of them is among the frames scanned |
| Selection.Reference | frame-ripper.py:73-76 | `last_unique_frame` after n frames: the last frame written; ReferenceStep and LastWriteIsReference state it |
| Selection.KeptIncreasing | frame-ripper.py:61-82 | the written indices are strictly increasing and below the number of frames scanned |
| Selection.ReferenceStep | frame-ripper.py:73-76 | after frame n, the reference is frame n if it scored below the threshold against the old reference, else unchanged |
| Selection.KeptExtends | frame-ripper.py:61-82 | scanning more frames only appends, and only indices of the frames scanned later |
| Selection.KeptRule | frame-ripper.py:73-76 | a later frame j is written exactly when sim(frame j, reference before j) < threshold |
| Selection.OnlyFirstWhenNeverBelow | frame-ripper.py:73-76 | if no frame scores below the threshold against an earlier one, only frame 0 is written |
| Selection.AllWhenAlwaysBelow | frame-ripper.py:73-76 | if every frame scores below the threshold against every earlier one, every frame is written |
| Selection.SteadyRun | frame-ripper.py:73-76 | while frames score at or above the threshold against the reference, nothing more is written |
| Extractor.TimeOf | frame-ripper.py:44 | the timestamp a frame is written under: the literal 0h0m0s0 for frame 0, the computed one after |
| Extractor.KeptWrites | frame-ripper.py:75 | the image writes after n frames, one per kept frame in order; KeptWritesStep, FirstWrite and DistinctPaths state it |
| Extractor.Length | frame-ripper.py:87 | the summary's timestamp: 0h0m0s0 until a second frame is read, then that of the last frame read |
| Extractor.Writes | frame-ripper.py:75 | there is one write per kept index |
| Extractor.KeptWritesStep | frame-ripper.py:73-76 | scanning frame n appends its write under its timestamp when it scores below the threshold, and nothing otherwise |
| Extractor.FirstWrite | frame-ripper.py:39-45 | whenever a frame is read, the first write is frame 0 at `{folder}/{name}-0h0m0s0.png` |
| Extractor.LastWriteIsReference | frame-ripper.py:75-76 | the reference frame is always the frame of the latest write |
| Extractor.DistinctPaths | frame-ripper.py:75 | at a frame rate in (0, 1000], no two writes of a run share a path |
| Extractor.TenthFramePath | frame-ripper.py:75 | frame 10 at 10 fps is written as `{folder}/{name}-0h0m1s0.png` |
| Extractor.TwoScenesKept | frame-ripper.py:61-82 | 30 frames with a single change at frame 10: exactly frames 0 and 10 are written |
| Extractor.TenFpsScenario | frame-ripper.py:25-89 | at 10 fps those frames give exactly two files, `-0h0m0s0.png` (frame 0) and `-0h0m1s0.png` (frame 10) |
| Extractor.FrameRipper.constructor | frame-ripper.py:36-37 | a ripper starts with no folder, no writes, no reference, a count of 0 and the time 0h0m0s0 |
| Extractor.VideoCapture.constructor | frame-ripper.py:31 | a new capture is positioned before the first frame |
| Extractor.VideoCapture.Read | frame-ripper.py:36 | `read()` yields the next frame and advances, or fails and stays put once all frames are read |
| Extractor.FrameRipper.GetUniqueFrames | frame-ripper.py:25-89 | the outcomes below, stated as properties of the whole run |
| Extractor.FrameRipper.ScanRest | frame-ripper.py:49-82 | after the second read and the loop, the writes are those of the kept frames and the reference is the last kept frame; ends with ZeroFrameRate exactly when there are at least 2 frames and fps is 0; otherwise count equals the number of frames and the time is that of the last frame |
| Extractor.FrameRipper.Advance | frame-ripper.py:61-82 | one loop pass keeps the loop invariant `Scanning` and adds exactly 1 to the count |
| Extractor.FrameRipper.Consider | frame-ripper.py:62-76 | after scoring frame `count`, the writes are those of the frames kept among the first count+1 and the reference is their last |

`Extractor.FrameRipper.GetUniqueFrames` states each outcome:
- **Empty video name:** the result is InvalidName. The folder flag is unchanged and nothing is written.
- **First read fails:** the result is Unreadable. The folder flag is unchanged, nothing is written, and the count is 0.
- **Otherwise:**
  - the folder exists;
  - the writes are exactly those of the kept frames, in order;
  - the reference is the last kept frame;
  - the reference is always the frame of the latest write.
- **ZeroFrameRate:** this happens exactly when fps is 0 and there are at least two frames. The count is then 1.
- **Summary:** in every other case the result is `Summary(count, time)`.
  - The count equals the number of frames.
  - The time is the timestamp of the last frame.
  - For a one-frame video the time is 0h0m0s0.

## Left out

- `multiprocess_unique_frames` (frame-ripper.py:9-23) is not part of this model. It only globs a directory for `.mp4` files and maps them over a process pool.
- The `__main__` entry point (frame-ripper.py:91-92) is not part of this model: it is a hard-coded path.
- The `tqdm` progress bar and `total_frames` are left out. They are display only.
- The console output is left out: the folder print, the per-frame log line, and the summary line with its `round(...)` formatting. `Summary(count, time)` carries the values the summary prints, except `round(fps, 2)`.
- OpenCV internals are left out:
  - decoding: `VideoCapture` is a sequence of frames, and the first failed read ends it;
  - `matchTemplate`/`minMaxLoc`: the abstract `sim`;
  - PNG encoding: `imwrite` is a record of the path and frame. A failed `imwrite` is not modelled.
- IEEE-754 doubles are modelled as exact reals.
  - The rounding of `count / fps` and `* 1000` is not modelled. Neither are NaN and infinite frame rates.
  - Negative frame rates follow real arithmetic, with Python's truncating `int()`.
- `mkdir` is a flag that is set on the first successful read; an existing folder is no error. Other `OSError`s are not modelled, nor are files already in the folder. `written` holds the writes of the latest run only.
- Paths are '/'-separated strings. `pathlib` normalisation (repeated or trailing separators, Windows separators) is not modelled.
- Extractor.DistinctPaths: proved only for frame rates in (0, 1000]. Above 1000 fps two frames can fall in the same millisecond and share a name.
