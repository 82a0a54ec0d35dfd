# Playback engine of the Dubai visa advert page

The page `src/app/page.tsx` plays a one-minute advert: six ten-second
frames shown in turn by a 200 ms timer, a progress bar, an `MM:SS`
readout, and a synthesized voice-over started through the browser's speech
engine. This project models the playback logic folded into that component
as pure Dafny functions and proves what the page relies on.

- `wrappers.dfy` (`Wrappers`): the `Option` datatype.
- `sequencer.dfy` (`Sequencer`): frames and their running sums, the frame
  lookup done on each timer callback, and the progress percentage.
- `readout.dfy` (`Readout`): the `0M:SS` / `"01:00"` readout, with
  JavaScript's `Math.floor`, truncating `%`, `toString` and `padStart`
  written out. A parser is the partner it is checked against.
- `voices.dfy` (`Voices`): the first-match priority search for the
  narration voice, checked against an independent per-voice rank.
- `playback.dfy` (`Playback`): the controller as an immutable record
  (`frameIndex`, `elapsed`, `isPlaying`, timer present, start mark,
  utterance, speech-engine counters) with `StopPlayback`, `ResetAd`,
  `StartAd`, `Tick` and `SpeechEnded`. It proves an invariant kept by any
  run of these with a monotone clock.

The clock (`performance.now`, in milliseconds) is a parameter of the
transitions that read it. The repeating timer is a present/absent flag. The
speech engine is modelled as cancel and speak counters plus the number of
utterances it holds: cancel drops them all and speak adds one. Whether the
platform has speech at all is the `supported` parameter. The voices
`getVoices` returns are a parameter of the start. Times are exact `real`s.

The frame lookup follows the code, which compares with `<=`. A time exactly
on a frame boundary therefore still shows the earlier frame: second 10 shows
frame 0, not frame 1. The model keeps this rule of the code
(`Sequencer.BoundaryStaysOnEarlierFrame`, `Sequencer.AdTimeline`).

The timer callback tests the start mark for truthiness. A start mark of
exactly 0 therefore counts as absent. `Playback.Armed` models this, and
`Playback.ZeroStartMarkIsAbsent` states its effect on the callback.

## Model

| member | source | states |
|---|---|---|
| Sequencer.AdFramesValid | src/app/page.tsx:13-63 | the advert has six frames, every duration is positive, and `totalDuration` is their sum, 60 seconds |
| Sequencer.ScanFrom | src/app/page.tsx:126-133 | the lookup loop resumed at frame `i` returns the first later frame whose running sum reaches `s`, or none when every running sum falls short |
| Sequencer.Lookup | src/app/page.tsx:126-133 | the chosen index is the smallest `i` with `s <= cumulative(0..i)`, within `[0, frames.length)`; none exactly when `s` exceeds every running sum |
| Sequencer.LookupDefined | src/app/page.tsx:124-133 | once `s` is clamped to the total, the scan always sets an index, because the last running sum is the total |
| Sequencer.LookupWindow | src/app/page.tsx:126-133 | for a clamped time, the lookup returns `i` if and only if `s` lies in frame `i`'s window (start of `i`, end of `i`], with times at or before 0 on frame 0 |
| Sequencer.BoundaryStaysOnEarlierFrame | src/app/page.tsx:129 | a time exactly at the end of frame `k` still shows frame `k` |
| Sequencer.LookupMonotone | src/app/page.tsx:126-133 | a later time never shows an earlier frame |
| Sequencer.AdTimeline | src/app/page.tsx:126-133 | in the advert, seconds 0 and 10 show frame 0, second 35 shows frame 3 and second 60 shows frame 5 |
| Sequencer.Progress | src/app/page.tsx:191 | progress is at most 100 and at least 0 for non-negative time; below the total it is elapsed/total scaled to 100 (progress × total = elapsed × 100); from the total on it is exactly 100 |
| Sequencer.ProgressMonotone | src/app/page.tsx:191 | more elapsed time never gives a smaller progress value |
| Sequencer.Total | src/app/page.tsx:63 | the summed duration of a playable frame list is positive, no frame of it ends later than the sum, and the sum is exactly where the last frame ends |
| Sequencer.PrefixStrictlyIncreasing | src/app/page.tsx:13-63 | with every duration positive, the running sums of the frame list strictly increase, so no two frames end at the same moment |
| Readout.TruncRem | src/app/page.tsx:256 | JavaScript's `%` by sixty: it agrees with the mathematical remainder for non-negative operands, is never positive for negative ones, stays strictly between -60 and 60, and differs from the dividend by a multiple of the divisor |
| Readout.IntToString | src/app/page.tsx:256 | `toString` prints a non-negative integer as decimal digits that read back as the integer, and a negative one as a minus sign followed by digits that read back as its magnitude |
| Readout.PadStart | src/app/page.tsx:256 | `padStart` leaves a string at least as wide as asked unchanged; a shorter one becomes exactly that wide, with the fill before the original text |
| Readout.DigitsRoundTrip | src/app/page.tsx:256 | the decimal digits printed for a number read back as that number |
| Readout.ReadoutText | src/app/page.tsx:256 | for non-negative time below the total, the readout parses back as minutes and seconds to the whole seconds elapsed; below the total it is exactly "0", the decimal minutes, ":" and the seconds within the minute padded to two digits; from the total on it is exactly "01:00", one minute |
| Readout.ReadoutShape | src/app/page.tsx:256 | for a one-minute advert the readout is always five characters, and starts with "00:" until the minute is up |
| Voices.ContainsFrom | src/app/page.tsx:171-172 | the substring test holds exactly when the pattern occurs at some position at or after the start |
| Voices.FindFrom | src/app/page.tsx:171-173 | the search returns the first voice satisfying the rule, or none exactly when no voice does |
| Voices.PreferredVoice | src/app/page.tsx:170-174 | the chained search picks the first voice of least rank (name `en-in` < lang `en-in` < lang prefix `en`), and nothing exactly when no voice meets any rule |
| Voices.NameRuleBeatsEarlierLangMatch | src/app/page.tsx:170-174 | a later voice whose name contains `en-in` wins over an earlier voice whose language is `en-IN` |
| Voices.NoEnglishVoiceKeepsDefault | src/app/page.tsx:170-174 | with no English voice, no voice is chosen and the platform default is kept |
| Playback.InitialInv | src/app/page.tsx:78-83 | the first-rendered state (frame 0, elapsed 0, not playing, no timer, no start mark, no utterance) satisfies the invariant |
| Playback.EndOfAdvert | src/app/page.tsx:96-97 | at the total the lookup shows the last frame, the bar is full and the readout reads back as one minute, so the frame and time stop sets agree with every display |
| Playback.StopPlayback | src/app/page.tsx:88-109 | stop ends on the last frame at the total, with progress 100 and readout "01:00"; it clears the timer, start mark and utterance, and cancels speech only when an utterance is held, cancelling was asked for and speech is supported. A cancel empties the engine; otherwise the engine is untouched, so the narration is left to finish |
| Playback.StopIdempotent | src/app/page.tsx:88-109 | stopping a stopped page changes nothing, counters included, so both the timer and `onend` may call it |
| Playback.ResetAd | src/app/page.tsx:147-160 | reset cancels speech whenever the platform has it, so the engine holds nothing; it clears the timer, start mark and utterance and rewinds to frame 0 at time 0, not playing |
| Playback.ResetIdempotent | src/app/page.tsx:147-160 | a second reset yields the same state apart from one more cancel call |
| Playback.NewUtterance | src/app/page.tsx:168-180 | the utterance has rate 0.9, pitch 1.05 and volume 1; it keeps the platform default voice exactly when no voice meets any rule, and otherwise uses a voice of least rank with every earlier voice ranked strictly worse |
| Playback.StartAd | src/app/page.tsx:162-188 | the corrected start resets, then plays with a timer marked at the given clock reading. With speech it cancels before speaking, so the engine holds exactly one utterance, and that utterance is the one built for the voices on offer: rate 0.9, pitch 1.05, volume 1, and the first voice of least rank, or the default exactly when no voice ranks |
| Playback.StartAdAsWritten | src/app/page.tsx:111-164 | the page's own start behaves as the corrected start when not already playing; when already playing it leaves `isPlaying` set with no timer and no start mark. Either way the speech it queues and the engine calls it makes are those of the corrected start, so with speech the engine holds one utterance after two cancels |
| Playback.Tick | src/app/page.tsx:121-137 | a tick without a usable start mark is a no-op. Otherwise, for a clock not behind the mark, elapsed is the clamped seconds since the mark and lies in `[0, total]`, and the shown frame is the frame for it. Playing ends exactly when the total is reached; the stopping tick clears the timer, start mark and utterance and shows the last frame, while an earlier tick changes only the elapsed time and the frame. The speech engine is never touched |
| Playback.ZeroStartMarkIsAbsent | src/app/page.tsx:122 | a callback whose start mark is 0 returns at once, whatever the clock reads |
| Playback.SpeechEnded | src/app/page.tsx:181-183 | the narration's end releases the utterance and stops the page on the last frame at the end of the advert, clearing the timer, start mark and narration handle, without any cancel |
| Playback.StaleSpeechEnded | src/app/page.tsx:181-183 | a cancelled narration reporting its end stops the page on the last frame at the end of the advert and clears the timer, start mark and narration handle, without touching the engine; it keeps the invariant |
| Playback.TickPreservesInv | src/app/page.tsx:121-137 | a timer callback at a clock reading not behind the start mark keeps the invariant, and any start mark left is still not after the clock reading |
| Playback.StepPreservesInv | src/app/page.tsx:88-188 | each of play (with the corrected start), reset, timer callback, narration end and the end report of a cancelled narration keeps the invariant, given a clock not behind the start mark |
| Playback.RunPreservesInv | src/app/page.tsx:88-188 | any sequence of play (with the corrected start), reset, timer, narration-end and stale narration-end events with a monotone clock keeps the invariant: the timer runs exactly while playing, with a start mark; the engine holds at most one utterance, and one whenever the page holds one; elapsed stays within the advert and the shown frame matches it |
| Playback.ReachableInv | src/app/page.tsx:78-188 | every state reachable from the first render with the corrected start satisfies the invariant: the timer runs exactly while playing, with a start mark, and the engine holds at most one utterance |
| Playback.ElapsedMonotone | src/app/page.tsx:122-125 | with a monotone clock, elapsed never decreases from one tick to the next |
| Playback.StartTwiceOneOfEach | src/app/page.tsx:162-188 | with the corrected start, two starts in a row leave one timer, marked at the second start, and with speech exactly one held utterance |
| Playback.ResetAfterStart | src/app/page.tsx:147-164 | reset right after start restores frame 0, elapsed 0 and not playing, and, with speech, leaves the engine holding no utterance |
| Playback.PlaysToEnd | src/app/page.tsx:121-137 | a tick one minute after the corrected start stops playing on the last frame at the total; it issues no cancel and, with speech, leaves the narration held by the engine |
| Playback.NarrationEndAfterTimerStop | src/app/page.tsx:181-183 | when the narration ends after the timer has stopped an advert begun by the corrected start, the stop runs again harmlessly: nothing but the engine's queue changes |
| Playback.RestartWhilePlayingFreezes | src/app/page.tsx:111-164 | with the page's own start, a second start while playing leaves "playing" with no timer while the engine, with speech, holds the new utterance; it breaks the invariant and makes every later tick a no-op |
| Playback.RestartWhilePlayingRearms | src/app/page.tsx:162-188 | with the corrected start, a second start while playing leaves a live timer marked at the second start and keeps the invariant |

## Findings

| source | as written | input that shows it | evidently intended | confidence | as-written member | corrected member |
|---|---|---|---|---|---|---|
| src/app/page.tsx:111-164 | `startAd` calls `resetAd`, which clears the timer and start mark and sets `isPlaying` false, then sets it true in the same handler. React applies both updates together, so when the page was already playing `isPlaying` does not change and the effect that marks the start and creates the timer does not run again | press play, then press play again before the minute is up: the frame stays at 0 and the readout at 00:00 until the narration ends | every start begins a fresh timed session, with one live timer | medium (depends on React batching the two updates); not executed | Playback.RestartWhilePlayingFreezes | Playback.RestartWhilePlayingRearms |

`Playback.StartAdAsWritten` models the page's start as written. `Playback.StartAd`
is the corrected start, and the rest of the model (`Playback.Step`, the
invariant lemmas) uses it.

## Left out

- The markup, styling and marketing texts: headline, subheadline, badge, footer and the narration script. Only frame durations matter to playback.
- The capability notice (src/app/page.tsx:320-324). It is presentation; the capability itself is the `supported` parameter.
- Real timing: `performance.now`, `setInterval`/`clearInterval` and the 200 ms cadence. The clock is an input value, the timer a flag, and each callback a `Tick`.
- The asynchronous browser speech engine. Its `onend` is a transition (`SpeechEnded`) that may fire whenever the engine holds an utterance. Whether a cancelled utterance also fires `onend` varies between platforms, so the end report of a cancelled utterance is a separate transition (`StaleSpeechEnded`) that may fire at any time; the event runs cover both behaviours.
- React hook mechanics in general: re-renders, effect scheduling, and the unmount cleanup (src/app/page.tsx:139-144). The playing effect (src/app/page.tsx:111-121) is folded into the start transition. Only the batching of `isPlaying` inside `startAd` is modelled, because it changes behaviour (see Findings).
- Floating-point rounding. Elapsed time, durations and progress are exact reals, and `(now - startedAt) / 1000` is exact division.
- Voices.PreferredVoice: lower-cases ASCII letters only, not the full Unicode mapping of `toLowerCase`. The patterns `en-in` and `en` are ASCII.
- Voices.PreferredVoice: returns the index of the chosen voice in the list rather than the voice object. The chosen voice is the element at that index.
