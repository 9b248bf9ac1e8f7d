/**
 * The timestamp that names a frame: the frame index divided by the frame
 * rate, split into hours, minutes, seconds and milliseconds by truncation and
 * modulo. Hours are whole 360-second units, exactly as the extractor computes
 * them (a frame six minutes in is named 1h6m0s0).
 *
 * Python floats are modelled as reals: `int(x)` truncates toward zero and `%`
 * by a positive constant is never negative, as Dafny's `%` is.
 */
module Timestamp {

  datatype FrameTime = FrameTime(h: int, m: int, s: int, ms: int)

  /** The timestamp of the first frame, 0h0m0s0. */
  const Zero := FrameTime(0, 0, 0, 0)

  /** Python's `int(x)` on a float: truncation toward zero. */
  function Trunc(x: real): (r: int)
    ensures x >= 0.0 ==> r >= 0 && r as real <= x < r as real + 1.0
    ensures x < 0.0 ==> r <= 0 && r as real - 1.0 < x <= r as real
  {
    if x >= 0.0 then x.Floor else -((-x).Floor)
  }

  /** `current_frame_count / fps`: seconds since the first frame. */
  function ElapsedSeconds(count: nat, fps: real): real
    requires fps != 0.0
  {
    count as real / fps
  }

  /** The components the extractor derives from the seconds elapsed. */
  function SplitSeconds(total: real): (t: FrameTime)
    ensures 0 <= t.m < 60 && 0 <= t.s < 60 && 0 <= t.ms < 1000
    ensures total >= 0.0 ==> t.h >= 0
  {
    FrameTime(Trunc(total / 360.0), Trunc(total / 60.0) % 60, Trunc(total) % 60, Trunc(total * 1000.0) % 1000)
  }

  /** The timestamp of the frame the counter `count` stands at. */
  function FrameTimeAt(count: nat, fps: real): FrameTime
    requires fps != 0.0
  {
    SplitSeconds(ElapsedSeconds(count, fps))
  }

  /** For a positive frame rate no component is negative, and all but the hours are bounded. */
  lemma FrameTimeAtBounds(count: nat, fps: real)
    requires fps > 0.0
    ensures var t := FrameTimeAt(count, fps);
      t.h >= 0 && 0 <= t.m < 60 && 0 <= t.s < 60 && 0 <= t.ms < 1000
  {
  }

  /** Whole milliseconds elapsed, for a positive frame rate. */
  function Millis(count: nat, fps: real): (k: nat)
    requires fps > 0.0
    ensures k as real <= ElapsedSeconds(count, fps) * 1000.0 < k as real + 1.0
  {
    (ElapsedSeconds(count, fps) * 1000.0).Floor
  }

  lemma MulMonotonic(a: real, b: real, d: real)
    requires a <= b && d > 0.0
    ensures a * d <= b * d
    ensures a < b ==> a * d < b * d
  {
  }

  lemma MulSign(a: real, d: real)
    requires d > 0.0
    ensures a > 0.0 <==> a * d > 0.0
  {
  }

  /** Flooring after dividing by a positive integer is integer division of the floor. */
  lemma FloorDiv(y: real, n: int)
    requires n > 0
    ensures (y / n as real).Floor == y.Floor / n
  {
    var f, q, r := y.Floor, y.Floor / n, y.Floor % n;
    var d := n as real;
    var z := y / d;
    assert z * d == y;
    assert f == q * n + r && 0 <= r < n;
    assert f as real == q as real * d + r as real;
    assert r as real + 1.0 <= d;
    // q <= z, since q * d <= f <= y
    if z < q as real {
      MulMonotonic(z, q as real, d);
      assert false;
    }
    // z < q + 1, since y < f + 1 <= (q + 1) * d
    assert (q + 1) * n == q * n + n;
    assert ((q + 1) * n) as real == (q as real + 1.0) * d;
    assert y < (f + 1) as real <= ((q + 1) * n) as real;
    if z >= q as real + 1.0 {
      MulMonotonic(q as real + 1.0, z, d);
      assert false;
    }
  }

  /**
   * For a positive frame rate every component is a function of the whole
   * milliseconds elapsed: hours count 360 000 ms, not 3 600 000.
   */
  lemma MillisDecomposition(count: nat, fps: real)
    requires fps > 0.0
    ensures var t, k := FrameTimeAt(count, fps), Millis(count, fps);
      t.ms == k % 1000 && t.s == k / 1000 % 60 && t.m == k / 60000 % 60 && t.h == k / 360000
  {
    var total := ElapsedSeconds(count, fps);
    var y := total * 1000.0;
    FloorDiv(y, 1000);
    assert y / 1000.0 == total;
    FloorDiv(y, 60000);
    assert y / 60000.0 == total / 60.0;
    FloorDiv(y, 360000);
    assert y / 360000.0 == total / 360.0;
  }

  lemma MulAtLeast(x: int, d: int)
    requires x >= 1 && d > 0
    ensures d * x >= d
  {
  }

  /** A quotient and remainder in range are the Euclidean ones. */
  lemma DivUnique(a: int, d: int, q: int, r: int)
    requires d > 0 && 0 <= r < d && a == d * q + r
    ensures a / d == q
  {
    var q', r' := a / d, a % d;
    assert d * q + r == d * q' + r';
    if q > q' {
      MulAtLeast(q - q', d);
      assert false;
    } else if q < q' {
      MulAtLeast(q' - q, d);
      assert false;
    }
  }

  /** Euclidean division by b and then by c is division by b * c. */
  lemma DivDiv(a: int, b: int, c: int)
    requires b > 0 && c > 0
    ensures a / b / c == a / (b * c)
  {
    var q, r := a / b, a % b;
    var q2, r2 := q / c, q % c;
    assert a == b * (c * q2 + r2) + r;
    assert a == (b * c) * q2 + (b * r2 + r);
    assert b * r2 <= b * (c - 1) by {
      if r2 < c - 1 {
        MulAtLeast(c - 1 - r2, b);
      }
    }
    DivUnique(a, b * c, q2, b * r2 + r);
  }

  /** The whole milliseconds elapsed can be read back from the timestamp. */
  lemma MillisFromTime(count: nat, fps: real)
    requires fps > 0.0
    ensures var t := FrameTimeAt(count, fps);
      Millis(count, fps) == 1000 * (3600 * (t.h / 10) + 60 * t.m + t.s) + t.ms
  {
    var t, k := FrameTimeAt(count, fps), Millis(count, fps);
    MillisDecomposition(count, fps);
    var w := k / 1000;
    DivDiv(k, 1000, 60);
    DivDiv(k, 1000, 360);
    DivDiv(w, 360, 10);
    DivDiv(w, 60, 60);
    assert t.s == w % 60 && t.m == w / 60 % 60 && t.h / 10 == w / 3600;
    assert w == 60 * (w / 60) + w % 60;
    assert w / 60 == 60 * (w / 3600) + w / 60 % 60;
  }

  /**
   * Two frames get the same timestamp exactly when they fall in the same
   * millisecond, so output names collide only within one millisecond.
   */
  lemma SameTimeIffSameMillis(i: nat, j: nat, fps: real)
    requires fps > 0.0
    ensures FrameTimeAt(i, fps) == FrameTimeAt(j, fps) <==> Millis(i, fps) == Millis(j, fps)
  {
    MillisDecomposition(i, fps);
    MillisDecomposition(j, fps);
    MillisFromTime(i, fps);
    MillisFromTime(j, fps);
  }

  /** At most 1000 frames per second, later frames fall in later milliseconds. */
  lemma MillisIncrease(i: nat, j: nat, fps: real)
    requires 0.0 < fps <= 1000.0 && i < j
    ensures Millis(i, fps) < Millis(j, fps)
  {
    var a, b := ElapsedSeconds(i, fps), ElapsedSeconds(j, fps);
    assert a * fps == i as real && b * fps == j as real;
    assert (b - a) * fps >= 1.0;
    MulSign(b - a, fps);
    MulMonotonic(fps, 1000.0, b - a);
    assert b * 1000.0 >= a * 1000.0 + 1.0;
  }

  /** The frame rate has no effect on the first frame: it is always 0h0m0s0. */
  lemma FirstFrameAtZero(fps: real)
    requires fps != 0.0
    ensures FrameTimeAt(0, fps) == Zero
  {
  }

  /** The 360-second hour: frame 360 at 1 fps, six minutes in, is stamped 1h6m0s0. */
  lemma SixMinutesStampedOneHour()
    ensures FrameTimeAt(360, 1.0) == FrameTime(1, 6, 0, 0)
  {
  }

  /** Frame 10 at 10 fps is stamped 0h0m1s0. */
  lemma TenthFrameAtTenFps()
    ensures FrameTimeAt(10, 10.0) == FrameTime(0, 0, 1, 0)
  {
  }
}
