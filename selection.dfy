/**
 * Which decoded frames the extractor writes, as a function of the frames,
 * the similarity score and the threshold. The first frame is always written;
 * every later frame is compared with the last written one and is written,
 * becoming the new reference, exactly when its score is below the threshold.
 *
 * The score (OpenCV's normalised cross-correlation) is a parameter `sim`,
 * applied as `sim(frame, reference)`.
 */
module Selection {

  function Last<T>(s: seq<T>): T
    requires |s| > 0
  {
    s[|s| - 1]
  }

  /** Indices, among the first `n` decoded frames, of the frames written, in order. */
  function Kept<F>(frames: seq<F>, n: nat, sim: (F, F) -> real, threshold: real): (kept: seq<nat>)
    requires 1 <= n <= |frames|
    ensures |kept| >= 1 && kept[0] == 0 && Last(kept) < n
    decreases n
  {
    if n == 1 then [0]
    else
      var kept := Kept(frames, n - 1, sim, threshold);
      if sim(frames[n - 1], frames[Last(kept)]) < threshold then kept + [n - 1] else kept
  }

  /** `s` is strictly increasing and every element is below `n`. */
  ghost predicate IncreasingBelow(s: seq<nat>, n: nat) {
    && (forall k :: 0 <= k < |s| ==> s[k] < n)
    && (forall k, l :: 0 <= k < l < |s| ==> s[k] < s[l])
  }

  /** The written indices are increasing and all among the frames scanned. */
  lemma {:induction false} KeptIncreasing<F>(frames: seq<F>, n: nat, sim: (F, F) -> real, threshold: real)
    requires 1 <= n <= |frames|
    ensures IncreasingBelow(Kept(frames, n, sim, threshold), n)
    decreases n
  {
    if n > 1 {
      var prev, kept := Kept(frames, n - 1, sim, threshold), Kept(frames, n, sim, threshold);
      KeptIncreasing(frames, n - 1, sim, threshold);
      if kept != prev {
        assert kept == prev + [n - 1];
        forall k, l | 0 <= k < l < |kept|
          ensures kept[k] < kept[l]
        {
          if l == |prev| {
            assert kept[k] == prev[k] < n - 1;
          } else {
            assert kept[k] == prev[k] && kept[l] == prev[l];
          }
        }
      }
    }
  }

  /** The reference frame once the first `n` frames have been scanned: the last written one. */
  function Reference<F>(frames: seq<F>, n: nat, sim: (F, F) -> real, threshold: real): F
    requires 1 <= n <= |frames|
  {
    frames[Last(Kept(frames, n, sim, threshold))]
  }

  /** Scanning frame `n` makes it the reference exactly when it scores below the threshold. */
  lemma ReferenceStep<F>(frames: seq<F>, n: nat, sim: (F, F) -> real, threshold: real)
    requires 1 <= n < |frames|
    ensures Reference(frames, n + 1, sim, threshold)
         == if sim(frames[n], Reference(frames, n, sim, threshold)) < threshold then frames[n]
            else Reference(frames, n, sim, threshold)
  {
  }

  /**
   * Decisions are never revised: scanning more frames only appends indices,
   * and every index appended is a frame scanned later.
   */
  lemma {:induction false} KeptExtends<F>(frames: seq<F>, n: nat, m: nat, sim: (F, F) -> real, threshold: real)
    requires 1 <= n <= m <= |frames|
    ensures var a, b := Kept(frames, n, sim, threshold), Kept(frames, m, sim, threshold);
      a <= b && forall k :: |a| <= k < |b| ==> n <= b[k]
    decreases m
  {
    if m > n {
      KeptExtends(frames, n, m - 1, sim, threshold);
    }
  }

  /**
   * Frame `j` (after the first) is written exactly when it scores below the
   * threshold against the frame written last before it.
   */
  lemma KeptRule<F>(frames: seq<F>, n: nat, j: nat, sim: (F, F) -> real, threshold: real)
    requires 1 <= j < n <= |frames|
    ensures j in Kept(frames, n, sim, threshold) <==> sim(frames[j], Reference(frames, j, sim, threshold)) < threshold
  {
    var prev := Kept(frames, j, sim, threshold);
    var a, b := Kept(frames, j + 1, sim, threshold), Kept(frames, n, sim, threshold);
    var below := sim(frames[j], frames[Last(prev)]) < threshold;
    KeptIncreasing(frames, j, sim, threshold);
    assert a == if below then prev + [j] else prev;
    KeptExtends(frames, j + 1, n, sim, threshold);
    assert b[..|a|] == a;
    if below {
      assert b[|a| - 1] == a[|a| - 1] == j;
    } else {
      forall k | 0 <= k < |b|
        ensures b[k] != j
      {
        if k < |a| {
          assert b[k] == prev[k];
        }
      }
    }
  }

  /** Every frame but the first scores at least the threshold against every earlier frame. */
  ghost predicate NeverBelow<F>(frames: seq<F>, sim: (F, F) -> real, threshold: real) {
    forall i, j :: 0 <= j < i < |frames| ==> threshold <= sim(frames[i], frames[j])
  }

  /** Every frame but the first scores below the threshold against every earlier frame. */
  ghost predicate AlwaysBelow<F>(frames: seq<F>, sim: (F, F) -> real, threshold: real) {
    forall i, j :: 0 <= j < i < |frames| ==> sim(frames[i], frames[j]) < threshold
  }

  /** With the threshold at or below every score, only the first frame is written. */
  lemma {:induction false} OnlyFirstWhenNeverBelow<F>(frames: seq<F>, n: nat, sim: (F, F) -> real, threshold: real)
    requires 1 <= n <= |frames| && NeverBelow(frames, sim, threshold)
    ensures Kept(frames, n, sim, threshold) == [0]
    decreases n
  {
    if n > 1 {
      OnlyFirstWhenNeverBelow(frames, n - 1, sim, threshold);
    }
  }

  /** With every score below the threshold, every frame is written, one file per frame. */
  lemma {:induction false} AllWhenAlwaysBelow<F>(frames: seq<F>, n: nat, sim: (F, F) -> real, threshold: real)
    requires 1 <= n <= |frames| && AlwaysBelow(frames, sim, threshold)
    ensures Kept(frames, n, sim, threshold) == seq(n, i => i)
    decreases n
  {
    if n > 1 {
      AllWhenAlwaysBelow(frames, n - 1, sim, threshold);
      assert seq(n - 1, i => i) + [n - 1] == seq(n, i => i);
    }
  }

  /**
   * While frames keep scoring at or above the threshold against the current
   * reference, nothing is written and the reference stays.
   */
  lemma {:induction false} SteadyRun<F>(frames: seq<F>, n: nat, m: nat, sim: (F, F) -> real, threshold: real)
    requires 1 <= n <= m <= |frames|
    requires forall j :: n <= j < m ==> threshold <= sim(frames[j], Reference(frames, n, sim, threshold))
    ensures Kept(frames, m, sim, threshold) == Kept(frames, n, sim, threshold)
    decreases m
  {
    if m > n {
      SteadyRun(frames, n, m - 1, sim, threshold);
    }
  }
}
