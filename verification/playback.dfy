/** The playback controller of the advert page as an immutable record and
    transition functions. The platform is abstracted: the clock reading
    (`performance.now`, in milliseconds) is a parameter of the transitions
    that read it, the repeating 200 ms timer is a present/absent flag, and
    the speech engine is a pair of call counters plus the number of
    utterances it still holds. */
module Playback {
  import opened Wrappers
  import opened Sequencer
  import opened Voices
  import opened Readout

  /** Delivery settings the page gives every utterance. */
  const Rate: real := 0.9
  const Pitch: real := 1.05
  const Volume: real := 1.0

  /** The narration request handed to the speech engine. */
  datatype Utterance = Utterance(voice: Option<Voice>, rate: real, pitch: real, volume: real)

  /** The speech engine as the controller drives it: how many times it was
      told to cancel and to speak, and how many utterances it still holds
      (spoken or waiting). */
  datatype Engine = Engine(cancels: nat, speaks: nat, queued: nat)

  /** `speechSynthesis.cancel()`: drops every held utterance. */
  function Cancel(e: Engine): Engine {
    Engine(e.cancels + 1, e.speaks, 0)
  }

  /** `speechSynthesis.speak(u)`: queues one more utterance. */
  function Speak(e: Engine): Engine {
    Engine(e.cancels, e.speaks + 1, e.queued + 1)
  }

  /** The page's state: the three React state values, the three refs, and
      the speech engine. */
  datatype Controller = Controller(
    frameIndex: nat,
    elapsed: real,
    isPlaying: bool,
    interval: bool,
    startedAt: Option<real>,
    speech: Option<Utterance>,
    engine: Engine)

  /** The page as first rendered. */
  const Initial: Controller :=
    Controller(0, 0.0, false, false, None, None, Engine(0, 0, 0))

  const LastFrame: nat := |AdFrames| - 1

  /** What every state reachable with the corrected start satisfies: the
      shown frame is the frame for the elapsed time, which stays within the
      advert; the timer runs exactly while playing, with a start mark; the
      engine holds at most one utterance, and holds it whenever the page has
      one. */
  predicate Inv(c: Controller) {
    && 0.0 <= c.elapsed <= TotalDuration
    && Lookup(AdFrames, c.elapsed) == Some(c.frameIndex)
    && (c.isPlaying <==> c.interval)
    && (c.interval <==> c.startedAt.Some?)
    && c.engine.queued <= 1
    && (c.speech.Some? ==> c.engine.queued == 1)
  }

  lemma InitialInv()
    ensures Inv(Initial)
  {
    AdTimeline();
  }

  /** At the total the last frame shows, the bar is full and the readout
      is one minute. */
  lemma EndOfAdvert()
    ensures Lookup(AdFrames, TotalDuration) == Some(LastFrame)
    ensures Progress(AdFrames, TotalDuration) == 100.0
    ensures ParseReadout(ReadoutText(TotalDuration, TotalDuration)) == Some(60)
  {
    AdFramesValid();
    AdTimeline();
  }

  /** `stopPlayback(cancelSpeech)`: jump to the end of the advert and stop
      the timer; cancel the narration only when one is held, cancelling was
      asked for, and the platform has speech. */
  function StopPlayback(c: Controller, cancelSpeech: bool, supported: bool): (r: Controller)
    ensures !r.isPlaying && !r.interval && r.startedAt.None? && r.speech.None?
    ensures r.elapsed == TotalDuration && r.frameIndex == LastFrame
    ensures Lookup(AdFrames, r.elapsed) == Some(r.frameIndex)
    ensures Progress(AdFrames, r.elapsed) == 100.0
    ensures ParseReadout(ReadoutText(r.elapsed, TotalDuration)) == Some(60)
    ensures r.engine.speaks == c.engine.speaks
    ensures r.engine.cancels == c.engine.cancels + (if c.speech.Some? && cancelSpeech && supported then 1 else 0)
    ensures !(c.speech.Some? && cancelSpeech && supported) ==> r.engine == c.engine
    ensures c.speech.Some? && cancelSpeech && supported ==> r.engine.queued == 0
    ensures c.engine.queued <= 1 ==> Inv(r)
  {
    EndOfAdvert();
    var e := if c.speech.Some? && cancelSpeech && supported then Cancel(c.engine) else c.engine;
    Controller(LastFrame, TotalDuration, false, false, None, None, e)
  }

  /** Stopping twice is stopping once: the second call finds no utterance
      to cancel, so the tick's stop and the narration's end may both fire. */
  lemma StopIdempotent(c: Controller, cancel1: bool, cancel2: bool, supported: bool)
    ensures StopPlayback(StopPlayback(c, cancel1, supported), cancel2, supported)
            == StopPlayback(c, cancel1, supported)
  {
  }

  /** `resetAd`: cancel the narration whenever the platform has speech,
      whether or not one is held, stop the timer and rewind to the start. */
  function ResetAd(c: Controller, supported: bool): (r: Controller)
    ensures !r.isPlaying && !r.interval && r.startedAt.None? && r.speech.None?
    ensures r.frameIndex == 0 && r.elapsed == 0.0
    ensures supported ==> r.engine.queued == 0 && r.engine.cancels == c.engine.cancels + 1
    ensures !supported ==> r.engine == c.engine
    ensures r.engine.speaks == c.engine.speaks
    ensures c.engine.queued <= 1 ==> Inv(r)
  {
    AdTimeline();
    var e := if supported then Cancel(c.engine) else c.engine;
    Controller(0, 0.0, false, false, None, None, e)
  }

  /** Resetting again changes nothing but the engine's cancel count. */
  lemma ResetIdempotent(c: Controller, supported: bool)
    ensures ResetAd(ResetAd(c, supported), supported).(engine := ResetAd(c, supported).engine)
            == ResetAd(c, supported)
    ensures ResetAd(ResetAd(c, supported), supported).engine.cancels
            == ResetAd(c, supported).engine.cancels + (if supported then 1 else 0)
  {
  }

  /** The utterance the page builds at start for the voices on offer: the
      fixed delivery settings, and the first voice of least rank, or the
      platform default exactly when no voice meets any rule. */
  function NewUtterance(voices: seq<Voice>): (u: Utterance)
    ensures u.rate == Rate && u.pitch == Pitch && u.volume == Volume
    ensures u.voice.None? <==> forall j :: 0 <= j < |voices| ==> Rank(voices[j]) == 3
    ensures u.voice.Some? ==>
              exists i :: 0 <= i < |voices| && voices[i] == u.voice.value
                && (forall j :: 0 <= j < i ==> Rank(u.voice.value) < Rank(voices[j]))
                && (forall j :: 0 <= j < |voices| ==> Rank(u.voice.value) <= Rank(voices[j]))
  {
    var pick := PreferredVoice(voices);
    Utterance(if pick.Some? then Some(voices[pick.value]) else None, Rate, Pitch, Volume)
  }

  /** `startAd` with the playing effect folded in (corrected, see
      `StartAdAsWritten`): reset, mark the start at clock reading `now`,
      start the timer, and, when the platform has speech, cancel and then
      speak one utterance in the preferred voice. */
  function StartAd(c: Controller, now: real, supported: bool, voices: seq<Voice>): (r: Controller)
    ensures r.isPlaying && r.interval && r.startedAt == Some(now)
    ensures r.frameIndex == 0 && r.elapsed == 0.0
    ensures supported ==> r.engine.queued == 1
    ensures supported ==> r.engine.speaks == c.engine.speaks + 1 && r.engine.cancels == c.engine.cancels + 2
    ensures !supported ==> r.engine == c.engine && r.speech.None?
    ensures supported ==> r.speech == Some(NewUtterance(voices))
    ensures c.engine.queued <= 1 ==> Inv(r)
  {
    var z := ResetAd(c, supported);
    var armed := z.(isPlaying := true, interval := true, startedAt := Some(now));
    if supported then
      armed.(speech := Some(NewUtterance(voices)), engine := Speak(Cancel(armed.engine)))
    else armed
  }

  /** `startAd` as the page wires it. `resetAd` sets `isPlaying` to false
      and `startAd` sets it back to true in the same event handler; React
      applies both together, so when the page was already playing the value
      does not change and the effect that marks the start and creates the
      timer does not run again, while `resetAd` has already cleared both. */
  function StartAdAsWritten(c: Controller, now: real, supported: bool, voices: seq<Voice>): (r: Controller)
    ensures !c.isPlaying ==> r == StartAd(c, now, supported, voices)
    ensures c.isPlaying ==> r.isPlaying && !r.interval && r.startedAt.None?
    ensures r.frameIndex == 0 && r.elapsed == 0.0
    ensures r.speech == StartAd(c, now, supported, voices).speech
    ensures r.engine == StartAd(c, now, supported, voices).engine
    ensures supported ==> r.engine.queued == 1 && r.engine.cancels == c.engine.cancels + 2
  {
    var started := StartAd(c, now, supported, voices);
    if c.isPlaying then started.(interval := false, startedAt := None) else started
  }

  /** The timer callback finds a usable start mark (the page tests the ref
      for truthiness, so a mark of 0 counts as absent). */
  predicate Armed(c: Controller) {
    c.interval && c.startedAt.Some? && c.startedAt.value != 0.0
  }

  /** A start mark of exactly 0 is falsy, so the callback returns at once
      however late the clock reading. */
  lemma ZeroStartMarkIsAbsent(c: Controller, now: real)
    requires c.startedAt == Some(0.0)
    ensures Tick(c, now) == c
  {
  }

  /** One timer callback at clock reading `now` (milliseconds): clamp the
      seconds since the start mark to the total, show the frame for that
      time, and stop, without cancelling the narration, once the total is
      reached. */
  function Tick(c: Controller, now: real): (r: Controller)
    ensures !Armed(c) ==> r == c
    ensures r.engine == c.engine
    ensures Armed(c) && c.startedAt.value <= now ==>
              && 0.0 <= r.elapsed <= TotalDuration
              && Lookup(AdFrames, r.elapsed) == Some(r.frameIndex)
              && (r.elapsed < TotalDuration ==> r.elapsed * 1000.0 == now - c.startedAt.value)
              && (r.elapsed == TotalDuration <==> TotalDuration * 1000.0 <= now - c.startedAt.value)
    ensures Armed(c) && c.isPlaying ==> (r.isPlaying <==> r.elapsed < TotalDuration)
    ensures Armed(c) && r.elapsed < TotalDuration ==> r.startedAt == c.startedAt && r.interval
    ensures Armed(c) && r.elapsed == TotalDuration ==>
              !r.interval && r.startedAt.None? && r.speech.None? && r.frameIndex == LastFrame
    ensures Armed(c) && r.elapsed < TotalDuration ==>
              r == c.(elapsed := r.elapsed, frameIndex := r.frameIndex)
  {
    if !Armed(c) then c
    else
      AdFramesValid();
      var raw := (now - c.startedAt.value) / 1000.0;
      var seconds := if TotalDuration < raw then TotalDuration else raw;
      LookupDefined(AdFrames, seconds);
      var shown := c.(elapsed := seconds, frameIndex := Lookup(AdFrames, seconds).GetOr(c.frameIndex));
      if seconds >= TotalDuration then StopPlayback(shown, false, false) else shown
  }

  /** The narration's `onend`: the engine lets go of the utterance and the
      page stops without cancelling anything. With nothing held there is
      nothing to end. */
  function SpeechEnded(c: Controller): (r: Controller)
    ensures c.engine.queued == 0 ==> r == c
    ensures c.engine.queued > 0 ==> r.engine.queued == c.engine.queued - 1
    ensures c.engine.queued > 0 ==> !r.isPlaying && !r.interval && r.elapsed == TotalDuration
    ensures c.engine.queued > 0 ==> r.frameIndex == LastFrame && r.startedAt.None? && r.speech.None?
    ensures r.engine.cancels == c.engine.cancels && r.engine.speaks == c.engine.speaks
  {
    if c.engine.queued == 0 then c
    else StopPlayback(c.(engine := c.engine.(queued := c.engine.queued - 1)), false, true)
  }

  /** `onend` of an utterance the engine no longer holds, because it was
      cancelled: on platforms that report a cancelled utterance as ended,
      the page's handler still runs `stopPlayback(false)`. */
  function StaleSpeechEnded(c: Controller): (r: Controller)
    ensures r.engine == c.engine
    ensures !r.isPlaying && !r.interval && r.elapsed == TotalDuration && r.frameIndex == LastFrame
    ensures r.startedAt.None? && r.speech.None?
    ensures c.engine.queued <= 1 ==> Inv(r)
  {
    StopPlayback(c, false, true)
  }

  /** What can happen to the page: the user presses play or reset, the
      timer fires, the narration finishes, or a cancelled narration reports
      its end. */
  datatype Action = Start(voices: seq<Voice>) | Reset | TimerFired | NarrationEnded | StaleNarrationEnded

  /** An action at a clock reading, in milliseconds. */
  datatype Event = Event(at: real, action: Action)

  function Step(c: Controller, supported: bool, e: Event): Controller {
    match e.action
    case Start(voices) => StartAd(c, e.at, supported, voices)
    case Reset => ResetAd(c, supported)
    case TimerFired => Tick(c, e.at)
    case NarrationEnded => SpeechEnded(c)
    case StaleNarrationEnded => StaleSpeechEnded(c)
  }

  function Run(c: Controller, supported: bool, events: seq<Event>): Controller
    decreases |events|
  {
    if |events| == 0 then c else Run(Step(c, supported, events[0]), supported, events[1..])
  }

  /** The clock never runs backwards. */
  predicate ClockOrdered(events: seq<Event>) {
    forall i, j :: 0 <= i < j < |events| ==> events[i].at <= events[j].at
  }

  lemma ClockOrderedTail(events: seq<Event>)
    requires |events| > 0 && ClockOrdered(events)
    ensures ClockOrdered(events[1..])
  {
    forall i, j | 0 <= i < j < |events| - 1
      ensures events[1..][i].at <= events[1..][j].at
    {
      assert events[1..][i] == events[i + 1];
      assert events[1..][j] == events[j + 1];
    }
  }

  /** The start mark, if any, is no later than clock reading `t`. */
  predicate StartedBy(c: Controller, t: real) {
    c.startedAt.Some? ==> c.startedAt.value <= t
  }

  /** A timer callback keeps the invariant when the clock is not behind
      the start mark. */
  lemma TickPreservesInv(c: Controller, now: real)
    requires Inv(c)
    requires StartedBy(c, now)
    ensures Inv(Tick(c, now))
    ensures StartedBy(Tick(c, now), now)
  {
    var r := Tick(c, now);
    if Armed(c) && r.elapsed < TotalDuration {
      assert r.speech == c.speech && r.isPlaying && r.interval;
    }
  }

  /** Every transition keeps the invariant, given a clock that has not
      gone back past the start mark. */
  lemma StepPreservesInv(c: Controller, supported: bool, e: Event)
    requires Inv(c)
    requires StartedBy(c, e.at)
    ensures Inv(Step(c, supported, e))
    ensures StartedBy(Step(c, supported, e), e.at)
  {
    match e.action
    case Start(voices) =>
      assert Step(c, supported, e) == StartAd(c, e.at, supported, voices);
    case Reset =>
      assert Step(c, supported, e) == ResetAd(c, supported);
    case TimerFired =>
      TickPreservesInv(c, e.at);
    case NarrationEnded =>
      assert Step(c, supported, e) == SpeechEnded(c);
    case StaleNarrationEnded =>
      assert Step(c, supported, e) == StaleSpeechEnded(c);
  }

  /** Any sequence of presses (with the corrected start), timer callbacks
      and narration ends, with a monotone clock, keeps the invariant: the
      timer runs exactly while playing, with a start mark; the engine holds
      at most one utterance; the shown frame matches the elapsed time, which
      stays within the advert. */
  lemma {:induction false} RunPreservesInv(c: Controller, supported: bool, events: seq<Event>)
    requires Inv(c)
    requires ClockOrdered(events)
    requires |events| > 0 ==> StartedBy(c, events[0].at)
    ensures Inv(Run(c, supported, events))
    decreases |events|
  {
    if |events| > 0 {
      StepPreservesInv(c, supported, events[0]);
      var c' := Step(c, supported, events[0]);
      if |events| > 1 {
        assert events[0].at <= events[1].at;
      }
      ClockOrderedTail(events);
      RunPreservesInv(c', supported, events[1..]);
    }
  }

  /** From the first render, every page state reachable with the corrected
      start satisfies the invariant. */
  lemma ReachableInv(supported: bool, events: seq<Event>)
    requires ClockOrdered(events)
    ensures Inv(Run(Initial, supported, events))
  {
    InitialInv();
    RunPreservesInv(Initial, supported, events);
  }

  /** Elapsed time never decreases from one timer callback to the next. */
  lemma ElapsedMonotone(c: Controller, now1: real, now2: real)
    requires Armed(c)
    requires c.startedAt.value <= now1 <= now2
    ensures Tick(c, now1).elapsed <= Tick(Tick(c, now1), now2).elapsed
  {
    var c1 := Tick(c, now1);
    if c1.elapsed < TotalDuration {
      assert Armed(c1);
    }
  }

  /** With the corrected start, pressing play twice in a row leaves one
      timer and one utterance: the second press cancels the first narration
      before speaking again. */
  lemma StartTwiceOneOfEach(c: Controller, t1: real, t2: real, supported: bool, v1: seq<Voice>, v2: seq<Voice>)
    requires Inv(c)
    ensures Inv(StartAd(StartAd(c, t1, supported, v1), t2, supported, v2))
    ensures StartAd(StartAd(c, t1, supported, v1), t2, supported, v2).interval
    ensures StartAd(StartAd(c, t1, supported, v1), t2, supported, v2).startedAt == Some(t2)
    ensures supported ==> StartAd(StartAd(c, t1, supported, v1), t2, supported, v2).engine.queued == 1
  {
  }

  /** Reset after play rewinds at once and silences the narration. */
  lemma ResetAfterStart(c: Controller, t: real, supported: bool, voices: seq<Voice>)
    ensures ResetAd(StartAd(c, t, supported, voices), supported).frameIndex == 0
    ensures ResetAd(StartAd(c, t, supported, voices), supported).elapsed == 0.0
    ensures !ResetAd(StartAd(c, t, supported, voices), supported).isPlaying
    ensures supported ==> ResetAd(StartAd(c, t, supported, voices), supported).engine.queued == 0
  {
  }

  /** A full minute after the corrected start, the timer ends the advert on
      its last frame with the bar full, and the narration, if any, is left
      to finish. Without speech the frames still play to the end. */
  lemma PlaysToEnd(c: Controller, t: real, supported: bool, voices: seq<Voice>)
    requires t > 0.0
    ensures !Tick(StartAd(c, t, supported, voices), t + 60000.0).isPlaying
    ensures Tick(StartAd(c, t, supported, voices), t + 60000.0).frameIndex == LastFrame
    ensures Tick(StartAd(c, t, supported, voices), t + 60000.0).elapsed == TotalDuration
    ensures Tick(StartAd(c, t, supported, voices), t + 60000.0).engine
            == StartAd(c, t, supported, voices).engine
    ensures supported ==> Tick(StartAd(c, t, supported, voices), t + 60000.0).engine.queued == 1
  {
    AdFramesValid();
  }

  /** After the timer has ended an advert begun by the corrected start, the
      narration's end changes nothing but the engine's queue and cancels
      nothing. */
  lemma NarrationEndAfterTimerStop(c: Controller, t: real, supported: bool, voices: seq<Voice>)
    requires t > 0.0
    requires supported
    ensures var done := Tick(StartAd(c, t, supported, voices), t + 60000.0);
            SpeechEnded(done).(engine := done.engine) == done
  {
    PlaysToEnd(c, t, supported, voices);
  }

  /** Reading of the as-written start: pressing play a second time while
      the advert runs leaves the page "playing" with no timer and no start
      mark, which breaks the invariant, and every later timer callback is a
      no-op, so the frames stay on the first one. */
  lemma RestartWhilePlayingFreezes(t1: real, t2: real, supported: bool, voices: seq<Voice>)
    requires t1 > 0.0
    ensures StartAdAsWritten(Initial, t1, supported, voices).interval
    ensures var again := StartAdAsWritten(StartAdAsWritten(Initial, t1, supported, voices), t2, supported, voices);
            && again.isPlaying && !again.interval
            && (supported ==> again.engine.queued == 1)
            && !Inv(again)
            && forall now :: Tick(again, now) == again
  {
  }

  /** The corrected start does not have that defect: the second press
      leaves a running timer marked at the second press. */
  lemma RestartWhilePlayingRearms(t1: real, t2: real, supported: bool, voices: seq<Voice>)
    requires t2 > 0.0
    ensures var again := StartAd(StartAd(Initial, t1, supported, voices), t2, supported, voices);
            && Armed(again) && again.startedAt == Some(t2) && Inv(again)
  {
  }
}
