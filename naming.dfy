/**
 * Names the extractor derives from the video's path: the video name (the file
 * name up to its first '.'), the output folder beside the video, and the file
 * name of each written frame, `{name}-{h}h{m}m{s}s{ms}.png`.
 *
 * Paths are '/'-separated strings as a directory scan yields them.
 */
module Naming {

  import opened Wrappers
  import opened Decimal
  import opened Timestamp

  /** Where the last component of `path` starts: just past its last '/'. */
  function NameStart(path: string): (i: nat)
    ensures i <= |path| && '/' !in path[i..]
    ensures i == 0 || path[i - 1] == '/'
  {
    if path == [] then 0
    else if path[|path| - 1] == '/' then |path|
    else
      var i := NameStart(path[..|path| - 1]);
      assert path[i..] == path[..|path| - 1][i..] + [path[|path| - 1]];
      i
  }

  /** `Path(path).name`: the last component. */
  function FileName(path: string): (name: string)
    ensures '/' !in name && |name| <= |path| && path == path[..|path| - |name|] + name
  {
    path[NameStart(path)..]
  }

  /** The name is the whole last component: it starts the path or follows a '/'. */
  lemma FileNameIsLastComponent(path: string)
    ensures var name := FileName(path);
      |name| == |path| || path[|path| - |name| - 1] == '/'
  {
  }

  /** The directory part of `path`, with its trailing '/' (empty for a bare name). */
  function Parent(path: string): (dir: string)
    ensures dir == [] || dir[|dir| - 1] == '/'
    ensures path == dir + FileName(path)
  {
    path[..NameStart(path)]
  }

  /** The part of `s` before its first '.' (all of `s` when it has none). */
  function BeforeFirstDot(s: string): (r: string)
    ensures '.' !in r && r <= s
    ensures r == s || s[|r|] == '.'
  {
    if s == [] || s[0] == '.' then [] else [s[0]] + BeforeFirstDot(s[1..])
  }

  /** `Path(video_file).name.split('.')[0]`. */
  function VideoName(path: string): (r: string)
    ensures '.' !in r && '/' !in r && r <= FileName(path)
    ensures r == FileName(path) || FileName(path)[|r|] == '.'
  {
    BeforeFirstDot(FileName(path))
  }

  lemma {:induction false} NameStartAfter(dir: string, name: string)
    requires dir == [] || dir[|dir| - 1] == '/'
    requires '/' !in name
    ensures NameStart(dir + name) == |dir|
    decreases |name|
  {
    if name == [] {
      assert dir + name == dir;
      if dir != [] {
        assert dir[..|dir| - 1] + [dir[|dir| - 1]] == dir;
      }
    } else {
      var n := name[..|name| - 1];
      assert (dir + name)[..|dir + name| - 1] == dir + n;
      assert name[|name| - 1] in name;
      NameStartAfter(dir, n);
    }
  }

  /**
   * `Path(video_file).with_name(video_name)`: the output folder. Python
   * raises ValueError for an empty name, so the caller checks it first.
   */
  function ImagesFolder(path: string): string
    requires VideoName(path) != []
  {
    Parent(path) + VideoName(path)
  }

  /** The output folder sits beside the video and is named after it. */
  lemma ImagesFolderBesideVideo(path: string)
    requires VideoName(path) != []
    ensures Parent(ImagesFolder(path)) == Parent(path)
    ensures FileName(ImagesFolder(path)) == VideoName(path)
  {
    NameStartAfter(Parent(path), VideoName(path));
  }

  /** `f"{h}h{m}m{s}s{ms}"`. */
  function TimeText(t: FrameTime): string {
    IntText(t.h) + "h" + IntText(t.m) + "m" + IntText(t.s) + "s" + IntText(t.ms)
  }

  lemma NoSlashInTimeText(t: FrameTime)
    ensures '/' !in TimeText(t)
  {
    NotInIntText(t.h, '/');
    NotInIntText(t.m, '/');
    NotInIntText(t.s, '/');
    NotInIntText(t.ms, '/');
  }

  /** `f"{video_name}-{h}h{m}m{s}s{ms}.png"`. */
  function FrameFileName(name: string, t: FrameTime): string {
    name + "-" + TimeText(t) + ".png"
  }

  /** A frame file name is the video name, a dash, the timestamp and `.png`, and has no '/'. */
  lemma FrameFileNameShape(name: string, t: FrameTime)
    ensures var f := FrameFileName(name, t);
      && |f| >= |name| + 5 && f[..|name| + 1] == name + "-" && f[|f| - 4..] == ".png"
      && ('/' !in name ==> '/' !in f)
  {
    NoSlashInTimeText(t);
  }

  /** `images_folder.joinpath(file_name).as_posix()`. */
  function FramePath(folder: string, name: string, t: FrameTime): string {
    folder + "/" + FrameFileName(name, t)
  }

  /** Every frame is written directly inside the output folder, under its frame file name. */
  lemma FramePathParts(folder: string, name: string, t: FrameTime)
    requires '/' !in name
    ensures Parent(FramePath(folder, name, t)) == folder + "/"
    ensures FileName(FramePath(folder, name, t)) == FrameFileName(name, t)
  {
    FrameFileNameShape(name, t);
    NameStartAfter(folder + "/", FrameFileName(name, t));
  }

  /** The first frame is written under the literal name `{video_name}-0h0m0s0.png`. */
  lemma FirstFrameFileName(name: string)
    ensures FrameFileName(name, Zero) == name + "-0h0m0s0.png"
  {
  }

  /** The split of `s` around the first `c`, if `s` contains one. */
  function SplitAt(s: string, c: char): Option<(string, string)> {
    if s == [] then None
    else if s[0] == c then Some(([], s[1..]))
    else match SplitAt(s[1..], c)
      case None => None
      case Some((x, y)) => Some(([s[0]] + x, y))
  }

  lemma {:induction false} SplitAtJoin(x: string, c: char, y: string)
    requires c !in x
    ensures SplitAt(x + [c] + y, c) == Some((x, y))
    decreases |x|
  {
    if x == [] {
      assert x + [c] + y == [c] + y;
    } else {
      assert (x + [c] + y)[1..] == x[1..] + [c] + y;
      assert x[0] in x;
      SplitAtJoin(x[1..], c, y);
      assert [x[0]] + x[1..] == x;
    }
  }

  /** Reads a timestamp back from the text TimeText writes. */
  function ParseTimeText(s: string): Option<FrameTime> {
    match SplitAt(s, 'h')
    case None => None
    case Some((hText, afterH)) =>
      match SplitAt(afterH, 'm')
      case None => None
      case Some((mText, afterM)) =>
        match SplitAt(afterM, 's')
        case None => None
        case Some((sText, msText)) =>
          match (ParseInt(hText), ParseInt(mText), ParseInt(sText), ParseInt(msText))
          case (Some(h), Some(m), Some(sec), Some(ms)) => Some(FrameTime(h, m, sec, ms))
          case _ => None
  }

  /** Reads the timestamp back from a frame file name of the video `name`. */
  function ParseFrameFileName(name: string, f: string): Option<FrameTime> {
    if |f| >= |name| + 5 && f[..|name| + 1] == name + "-" && f[|f| - 4..] == ".png"
    then ParseTimeText(f[|name| + 1..|f| - 4])
    else None
  }

  /** Integer text is digits and a sign, so any other character delimits it. */
  lemma NotInIntText(n: int, c: char)
    requires !IsDigit(c) && c != '-'
    ensures c !in IntText(n)
  {
    IntTextShape(n);
  }

  lemma ParseTimeTextRoundTrip(t: FrameTime)
    ensures ParseTimeText(TimeText(t)) == Some(t)
  {
    var hs, ms, ss, mss := IntText(t.h), IntText(t.m), IntText(t.s), IntText(t.ms);
    NotInIntText(t.h, 'h');
    NotInIntText(t.m, 'm');
    NotInIntText(t.s, 's');
    var afterM := ss + "s" + mss;
    var afterH := ms + "m" + afterM;
    assert TimeText(t) == hs + "h" + afterH;
    SplitAtJoin(hs, 'h', afterH);
    SplitAtJoin(ms, 'm', afterM);
    SplitAtJoin(ss, 's', mss);
    ParseIntText(t.h);
    ParseIntText(t.m);
    ParseIntText(t.s);
    ParseIntText(t.ms);
  }

  /** A frame file name gives back the timestamp it was made from. */
  lemma ParseFrameFileNameRoundTrip(name: string, t: FrameTime)
    ensures ParseFrameFileName(name, FrameFileName(name, t)) == Some(t)
  {
    var f := FrameFileName(name, t);
    assert f[|name| + 1..|f| - 4] == TimeText(t);
    ParseTimeTextRoundTrip(t);
  }

  /** Within one video, frames with different timestamps get different files. */
  lemma FrameFileNameInjective(name: string, t1: FrameTime, t2: FrameTime)
    ensures FrameFileName(name, t1) == FrameFileName(name, t2) <==> t1 == t2
  {
    ParseFrameFileNameRoundTrip(name, t1);
    ParseFrameFileNameRoundTrip(name, t2);
  }

  /** Within one output folder, frames with different timestamps get different paths. */
  lemma FramePathInjective(folder: string, name: string, t1: FrameTime, t2: FrameTime)
    ensures FramePath(folder, name, t1) == FramePath(folder, name, t2) <==> t1 == t2
  {
    var dir := folder + "/";
    assert (dir + FrameFileName(name, t1))[|dir|..] == FrameFileName(name, t1);
    assert (dir + FrameFileName(name, t2))[|dir|..] == FrameFileName(name, t2);
    FrameFileNameInjective(name, t1, t2);
  }
}
