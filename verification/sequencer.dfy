/** The frame sequencer of the advert page: a static list of timed frames,
    the lookup from elapsed seconds to the active frame, and the progress
    percentage shown by the progress bar. Times are exact `real` seconds. */
module Sequencer {
  import opened Wrappers

  /** One slide of the advert. Only its display time matters to playback;
      the headline, subheadline, badge and footer texts are presentation. */
  datatype Frame = Frame(duration: real)

  /** A frame list the page can play: at least one frame, every duration
      strictly positive. */
  predicate ValidFrames(frames: seq<Frame>) {
    |frames| > 0 && forall i :: 0 <= i < |frames| ==> frames[i].duration > 0.0
  }

  /** Sum of the durations of the first `k` frames, accumulated left to
      right as the page's `reduce` and its lookup loop do. */
  function Prefix(frames: seq<Frame>, k: nat): real
    requires k <= |frames|
  {
    if k == 0 then 0.0 else Prefix(frames, k - 1) + frames[k - 1].duration
  }

  /** The moment frame `j` ends: the running sum with frame `j` included. */
  function End(frames: seq<Frame>, j: nat): real
    requires j < |frames|
  {
    Prefix(frames, j + 1)
  }

  /** Total play time of a frame list: positive for a playable list, and
      no frame of it ends later. */
  function Total(frames: seq<Frame>): (r: real)
    ensures ValidFrames(frames) ==> 0.0 < r
    ensures ValidFrames(frames) ==> forall j :: 0 <= j < |frames| ==> End(frames, j) <= r
    ensures 0 < |frames| ==> r == End(frames, |frames| - 1)
  {
    if ValidFrames(frames) then
      PrefixStrictlyIncreasing(frames, 0, |frames|);
      EndsWithinTotal(frames);
      Prefix(frames, |frames|)
    else Prefix(frames, |frames|)
  }

  /** Every frame of a playable list ends by the last one. */
  lemma EndsWithinTotal(frames: seq<Frame>)
    requires ValidFrames(frames)
    ensures forall j :: 0 <= j < |frames| ==> End(frames, j) <= Prefix(frames, |frames|)
  {
    forall j | 0 <= j < |frames| - 1
      ensures End(frames, j) <= Prefix(frames, |frames|)
    {
      PrefixStrictlyIncreasing(frames, j + 1, |frames|);
    }
  }

  /** The six ten-second frames of the advert. */
  const AdFrames: seq<Frame> :=
    [Frame(10.0), Frame(10.0), Frame(10.0), Frame(10.0), Frame(10.0), Frame(10.0)]

  /** `totalDuration` of the page. */
  const TotalDuration: real := Total(AdFrames)

  /** The advert's frames are playable and last one minute in all. */
  lemma AdFramesValid()
    ensures ValidFrames(AdFrames)
    ensures |AdFrames| == 6
    ensures TotalDuration == 60.0
  {
    assert Prefix(AdFrames, 1) == 10.0;
    assert Prefix(AdFrames, 2) == 20.0;
    assert Prefix(AdFrames, 3) == 30.0;
    assert Prefix(AdFrames, 4) == 40.0;
    assert Prefix(AdFrames, 5) == 50.0;
  }

  /** With positive durations the running sums strictly increase. */
  lemma {:induction false} PrefixStrictlyIncreasing(frames: seq<Frame>, i: nat, j: nat)
    requires ValidFrames(frames)
    requires i < j <= |frames|
    ensures Prefix(frames, i) < Prefix(frames, j)
  {
    if i < j - 1 {
      PrefixStrictlyIncreasing(frames, i, j - 1);
    }
  }

  /** The lookup loop resumed at frame `i` with `acc` seconds already
      accumulated: it adds frame `i`'s duration and stops at the first
      frame whose running sum reaches `s`. `None` means the loop ran off
      the end and the page keeps the frame index it had. */
  function ScanFrom(frames: seq<Frame>, s: real, i: nat, acc: real): (r: Option<nat>)
    requires i <= |frames|
    requires acc == Prefix(frames, i)
    decreases |frames| - i
    ensures r.Some? ==> i <= r.value < |frames| && s <= End(frames, r.value)
    ensures r.Some? ==> forall j :: i <= j < r.value ==> End(frames, j) < s
    ensures r.None? <==> forall j :: i <= j < |frames| ==> End(frames, j) < s
  {
    if i == |frames| then None
    else
      var acc' := acc + frames[i].duration;
      if s <= acc' then Some(i) else ScanFrom(frames, s, i + 1, acc')
  }

  /** The active frame for `s` elapsed seconds: the smallest index whose
      running sum, that frame included, is at least `s`. */
  function Lookup(frames: seq<Frame>, s: real): (r: Option<nat>)
    ensures r.Some? ==> r.value < |frames| && s <= End(frames, r.value)
    ensures r.Some? ==> forall j :: 0 <= j < r.value ==> End(frames, j) < s
    ensures r.None? <==> forall j :: 0 <= j < |frames| ==> End(frames, j) < s
  {
    ScanFrom(frames, s, 0, 0.0)
  }

  /** The scan always finds a frame once `s` has been clamped to the total,
      because the last running sum is the total itself. */
  lemma LookupDefined(frames: seq<Frame>, s: real)
    requires |frames| > 0
    requires s <= Total(frames)
    ensures Lookup(frames, s).Some?
  {
    assert End(frames, |frames| - 1) == Total(frames);
  }

  /** Frame `i` owns the half-open window (start of `i`, end of `i`]: the
      lookup picks `i` exactly when `s` lies in that window. Times at or
      before zero belong to the first frame. */
  lemma {:induction false} LookupWindow(frames: seq<Frame>, s: real, i: nat)
    requires ValidFrames(frames)
    requires s <= Total(frames)
    ensures Lookup(frames, s) == Some(i) <==>
              i < |frames| && (i == 0 || Prefix(frames, i) < s) && s <= End(frames, i)
  {
    LookupDefined(frames, s);
    var k := Lookup(frames, s).value;
    if k > 0 {
      assert End(frames, k - 1) < s;
    }
    if i < |frames| && (i == 0 || Prefix(frames, i) < s) && s <= End(frames, i) {
      if k + 1 < i {
        PrefixStrictlyIncreasing(frames, k + 1, i);
      }
    }
  }

  /** A time exactly on the boundary at the end of frame `k` still shows
      frame `k`: the page compares with `<=`, so the later frame only
      becomes active once the boundary has been passed. */
  lemma BoundaryStaysOnEarlierFrame(frames: seq<Frame>, k: nat)
    requires ValidFrames(frames)
    requires k < |frames|
    ensures Lookup(frames, Prefix(frames, k + 1)) == Some(k)
  {
    if k > 0 {
      PrefixStrictlyIncreasing(frames, k, k + 1);
    }
    if k + 1 < |frames| {
      PrefixStrictlyIncreasing(frames, k + 1, |frames|);
    }
    LookupWindow(frames, Prefix(frames, k + 1), k);
  }

  /** A later time never shows an earlier frame. */
  lemma LookupMonotone(frames: seq<Frame>, s1: real, s2: real)
    requires s1 <= s2
    requires Lookup(frames, s2).Some?
    ensures Lookup(frames, s1).Some?
    ensures Lookup(frames, s1).value <= Lookup(frames, s2).value
  {
    var k2 := Lookup(frames, s2).value;
    assert s1 <= End(frames, k2);
  }

  /** The advert's own timeline: second 0 shows the first frame, second 10
      (a boundary) still shows it, second 35 shows the fourth frame and the
      full minute shows the last. */
  lemma AdTimeline()
    ensures Lookup(AdFrames, 0.0) == Some(0)
    ensures Lookup(AdFrames, 10.0) == Some(0)
    ensures Lookup(AdFrames, 35.0) == Some(3)
    ensures Lookup(AdFrames, 60.0) == Some(5)
  {
    AdFramesValid();
    LookupWindow(AdFrames, 0.0, 0);
    BoundaryStaysOnEarlierFrame(AdFrames, 0);
    assert Prefix(AdFrames, 3) == 30.0 && Prefix(AdFrames, 4) == 40.0;
    LookupWindow(AdFrames, 35.0, 3);
    BoundaryStaysOnEarlierFrame(AdFrames, 5);
  }

  /** Arithmetic behind the progress bar: `e / t * 100` for a positive
      total `t`. */
  lemma ScaleFacts(e: real, t: real)
    requires t > 0.0
    ensures (e / t * 100.0) * t == e * 100.0
    ensures e <= t ==> e / t * 100.0 <= 100.0
    ensures t <= e ==> 100.0 <= e / t * 100.0
    ensures 0.0 <= e ==> 0.0 <= e / t * 100.0
  {
    var q := e / t;
    assert q * t == e;
    if e <= t {
      assert q * t <= 1.0 * t;
    }
    if t <= e {
      assert 1.0 * t <= q * t;
    }
  }

  /** Width of the progress bar, in percent, after `elapsed` seconds:
      elapsed over total, scaled to a hundred and capped there. */
  function Progress(frames: seq<Frame>, elapsed: real): (r: real)
    requires ValidFrames(frames)
    ensures r <= 100.0
    ensures 0.0 <= elapsed ==> 0.0 <= r
    ensures elapsed <= Total(frames) ==> r * Total(frames) == elapsed * 100.0
    ensures Total(frames) <= elapsed ==> r == 100.0
  {
    var t := Total(frames);
    PrefixStrictlyIncreasing(frames, 0, |frames|);
    ScaleFacts(elapsed, t);
    var p := elapsed / t * 100.0;
    if p < 100.0 then p else 100.0
  }

  /** More elapsed time never shrinks the progress bar. */
  lemma ProgressMonotone(frames: seq<Frame>, e1: real, e2: real)
    requires ValidFrames(frames)
    requires e1 <= e2
    ensures Progress(frames, e1) <= Progress(frames, e2)
  {
    var t := Total(frames);
    PrefixStrictlyIncreasing(frames, 0, |frames|);
    ScaleFacts(e1, t);
    ScaleFacts(e2, t);
    assert 0.0 <= (e2 - e1) / t;
    assert e2 / t - e1 / t == (e2 - e1) / t;
  }
}
