# ncplayer — a Dafny model of the player's logic

ncplayer is a video player shipped as the custom element `<nc-player>`. This
project models the sequential logic behind the element and proves properties
about it:

- the element's attribute parsing, property validation and clean-up list;
- the playback state machine: play, pause, time and buffer updates, volume
  persistence, and the timer that hides the controls;
- the subtitle-track controller and the subtitle selector;
- the seek and volume sliders, the hover preview and the time display;
- the fullscreen controller, the global event registry, the shared-stylesheet
  mounter, `replace`, `signalize`, and the player's derived `<video>`
  attributes.

JavaScript numbers are `Js.Number`: a real value, NaN, or a signed infinity.
This is needed because several handlers divide by a duration that is NaN
until the metadata loads. DOM state becomes plain data:

- a text track is a mode plus cues;
- a listener list is a set (or a multiset where each registration uses a
  new closure);
- `localStorage` is a map;
- a pending `setTimeout` is a field, fired by an explicit step.

Each `.dfy` file is one module, following the source layout:

| file | module | source |
|---|---|---|
| `js.dfy` | `Js` | JavaScript numbers, `Option`, thrown errors |
| `text.dfy` | `Text` | `trim`, `split`, `join`, `padStart`, `toString` |
| `math.dfy` | `MathUtil` | `src/utilities/math.ts` |
| `format_time.dfy` | `FormatTime` | `src/utilities/format-time.ts` |
| `attribute_parse.dfy` | `AttributeParse` | `parseSources` / `parseSubtitles` in `src/web-component.ts` |
| `web_component.dfy` | `WebComponent` | the rest of `src/web-component.ts` |
| `replace.dfy` | `Replace` | `src/utilities/repalce.ts` |
| `playback.dfy` | `Playback` | `src/hooks/playback-controls.ts` |
| `subtrack.dfy` | `Subtrack` | `src/hooks/subtrack-controller.ts` |
| `subtitle_select.dfy` | `SubtitleSelect` | `src/components/subtitle-select.tsx` |
| `slider.dfy` | `Slider` | the drag logic shared by `video-track.tsx` and `volume-control.tsx` |
| `video_track.dfy` | `VideoTrack` | `src/components/video-track.tsx` (preview) |
| `volume_control.dfy` | `VolumeControl` | `src/components/volume-control.tsx` (muted state) |
| `time_display.dfy` | `TimeDisplay` | `src/components/time-display.tsx` |
| `global_events.dfy` | `GlobalEvents` | `src/hooks/global-events-controller.ts` |
| `fullscreen.dfy` | `Fullscreen` | `src/hooks/fullscreen-controller.ts`, `src/utilities/get-fullscreen-elem.ts` |
| `stylesheets.dfy` | `Stylesheets` | `src/utilities/mount-stylesheet.ts` |
| `signalize.dfy` | `Signalize` | `src/utilities/signalize.ts` |
| `player.dfy` | `Player` | `src/player.component.tsx` (`src`, `width`/`height`, `styles`, `onSeek`) |

## Where the code and the documented behaviour differ

The model follows the code in each of these places:

- **Play and pause before the metadata loads.** `handlePlay` and
  `handlePause` set the progress to `currentTime / duration` with no check on
  the duration. Before the metadata loads this makes the progress NaN. Only
  `handleTimeUpdate` guards on a truthy duration. See
  `Playback.ProgressBeforeMetadata`.
- **Cue-change listeners with two showing tracks.** The `showControls`
  listener of the subtitle controller keeps one clean-up closure. Each
  showing track overwrites it. With two showing tracks, the first track's
  `cuechange` listener is never removed, not even on disposal. See
  `Subtrack.TwoShowingLeaves`. With distinct track ids, selection leaves at
  most one track showing, and then every listener is accounted for.
- **Shared stylesheet handles.** A second `mountStylesheet` of the same text
  returns a handle that removes the shared element, so the element is gone
  for the first mount too. See `Stylesheets.SharedRemoveTakesTheElement`.
- **`parseSources`.** The segment reader of `parseSources` drops the type
  and the label of the documented syntax. The element stores what this
  reader returns (`WebComponent.SourcesAttributeKeepsOnlySrc`). The
  reader that keeps every field is modelled beside it as the intended
  behaviour. This is listed under Findings.
- **Seeking to a time that is not finite.** `onSeek` assigns
  `duration × progress` to the video's `currentTime`. When that product is
  NaN or infinite, the assignment throws and the progress is not
  dispatched. This happens for a NaN slider value, and for every seek on a
  video of infinite duration. See `Player.OnSeek` and
  `Player.SeekOnEndlessVideo`.

## Model

| member | source | states |
|---|---|---|
| MathUtil.Round | src/utilities/math.ts:17 | `Math.round` lands within half of its argument, halves rounding up |
| MathUtil.Clamp | src/utilities/math.ts:1-3 | the result lies in `[min, max]` on a non-empty range; it is the value inside the range, the nearer end outside it, and `max` when `min > max` |
| MathUtil.ClampIsNearest | src/utilities/math.ts:1-3 | clamp picks the point of the range nearest to the value |
| MathUtil.ClampNonExpansive | src/utilities/math.ts:1-3 | clamping never moves two values further apart |
| MathUtil.ToPrecision | src/utilities/math.ts:5-9 | truncation to `p` decimals is at most the value and less than `10^-p` below it |
| MathUtil.ToPrecisionIdempotent | src/utilities/math.ts:5-9 | truncating twice to the same precision is truncating once |
| MathUtil.ChangeWithStepSpec | src/utilities/math.ts:11-20 | the result is the old value plus a whole number of steps, within half a step of the requested value |
| MathUtil.ChangeWithStepStays | src/utilities/math.ts:11-20 | asking for the current value changes nothing |
| MathUtil.ChangeWithStepExact | src/utilities/math.ts:11-20 | a value a whole number of steps away is reached exactly |
| MathUtil.ChangeWithStepExample | src/utilities/math.ts:11-20 | 0.2 moved towards 0.234 in steps of 0.01 gives 0.23 |
| MathUtil.ClampN | src/utilities/math.ts:1-3 | on JS numbers clamp keeps NaN, and sends every other number (the infinities included) into the range |
| MathUtil.ToPrecisionN | src/utilities/math.ts:5-9 | NaN and the infinities pass through; finite values truncate as above |
| MathUtil.ChangeWithStepN | src/utilities/math.ts:11-20 | the result is finite iff both inputs are; it is NaN iff the old value is not finite or the request is NaN |
| Text.TrimSpec | src/web-component.ts:278 | `trim` always yields a trimmed string and leaves a trimmed one alone |
| Text.JoinSplit | src/web-component.ts:252 | joining the pieces of `split(";;")` with the separator rebuilds the string |
| Text.SplitJoin | src/web-component.ts:311 | pieces free of `;` joined with `;;` split back into the same pieces |
| Text.PadStart | src/utilities/format-time.ts:7-9 | `padStart` reaches the width with the fill on the left and keeps the string at the right end |
| Text.ParseNatToString | src/utilities/format-time.ts:7-9 | `n.toString()` reads back as `n` |
| Text.ParseLeadingZeros | src/utilities/format-time.ts:7-9 | zero padding does not change the value read back |
| FormatTime.FieldsOfTime | src/utilities/format-time.ts:2-4 | for a non-negative time the fields are the hours, minutes and seconds of its whole seconds |
| FormatTime.FormatTimeFields | src/utilities/format-time.ts:6-16 | the output is `HH:MM:SS` exactly when the time reaches an hour, otherwise `MM:SS`; every field has two or more digits; minutes and seconds are below 60 |
| FormatTime.DecodeFormatTime | src/utilities/format-time.ts:1-17 | reading the output back in base 60 gives the whole seconds of the input |
| FormatTime.FormatTimeUnderAMinute | src/utilities/format-time.ts:11-16 | under a minute the output is `00:` and the two-digit seconds |
| AttributeParse.ScanLoop | src/web-component.ts:260-293 | the indexed character loop computes the scanner's recursive reading |
| AttributeParse.SubtitleScannerReadsPieces | src/web-component.ts:322-368 | the subtitle scanner reads `name=value` pieces back exactly, field by field |
| AttributeParse.SourceScannerReadsCumulative | src/web-component.ts:257-293 | the source scanner assigns at each boundary the names and the values run together so far, and nothing at the end |
| AttributeParse.ParseSubtitles | src/web-component.ts:301-378 | no attribute gives no tracks; otherwise one track per `;;` segment |
| AttributeParse.ParseRenderTrack | src/web-component.ts:322-376 | a track written in the documented syntax reads back as itself |
| AttributeParse.ParseRenderTracks | src/web-component.ts:301-378 | tracks written in the attribute syntax and joined with `;;` parse back to the same list |
| AttributeParse.ParseSourcesWith | src/web-component.ts:242-299 | no attribute gives no value; text without `;` is a URL; text with `;` gives one source per `;;` segment |
| AttributeParse.ScanValueCommas | src/web-component.ts:271-291 | a comma not followed by `\w+=` is an ordinary character of the value being read |
| AttributeParse.CommaStaysInValue | src/web-component.ts:356-368 | a one-field segment whose commas are not followed by `\w+=` keeps them: the subtitle scanner assigns the whole value, the source scanner nothing |
| AttributeParse.CommaInSource | src/web-component.ts:252-296 | `src=a,b` is the source `a,b` with the corrected reader, and the empty source as written |
| AttributeParse.AsWrittenOnlyFirst | src/web-component.ts:257-293 | as written, when the first field is `src`, `type` or `label`, at most that field is assigned |
| AttributeParse.AsWrittenRunsNamesTogether | src/web-component.ts:257-293 | as written, `lab=x,el=y,z=w` stores the label `xy`: a later boundary assigns the names run together |
| AttributeParse.AsWrittenDropsTypeAndLabel | src/web-component.ts:249-296 | as written, `src=…,type=…,label=…` keeps the `src` and loses the type and the label |
| AttributeParse.AsWrittenSourcesKeepOnlySrc | src/web-component.ts:242-299 | as written, two or more sources in the documented syntax parse to those sources with only their `src` |
| AttributeParse.ParseRenderSource | src/web-component.ts:249-296 | with the corrected reader, a source in the documented syntax reads back as itself |
| AttributeParse.ParseRenderSources | src/web-component.ts:242-299 | with the corrected reader, two or more sources parse back to the list; one source is taken for a URL |
| WebComponent.AttributeNames | src/web-component.ts:5-25 | the seventeen observed attribute names and the properties are in one-to-one correspondence |
| WebComponent.ValidateString | src/web-component.ts:193-201 | passes iff the value is undefined or a string; otherwise throws `Attribute "<name>" must be a string` |
| WebComponent.ValidateNumber | src/web-component.ts:203-211 | passes iff the value is undefined or a number, else the number message |
| WebComponent.ValidateBoolean | src/web-component.ts:213-221 | passes iff the value is undefined or a boolean, else the boolean message |
| WebComponent.ValidateAccepts | src/web-component.ts:47-183 | each setter's check throws exactly on the values the setter refuses, with that attribute's message; `sources` and `subtitles` never throw |
| WebComponent.Set | src/web-component.ts:47-183 | a setter fails iff the check refuses the value; on success the getter returns the value and every other property is unchanged |
| WebComponent.Parse | src/web-component.ts:223-240 | a missing attribute parses to undefined and a present one never does |
| WebComponent.ParsePresence | src/web-component.ts:230-237 | a present boolean attribute is true whatever its text, `"false"` and `""` included |
| WebComponent.StylesValue | src/web-component.ts:474-482 | a removed `styles` attribute gives undefined and a present one never does |
| WebComponent.AttributeValueAccepted | src/web-component.ts:417-484 | every parsed attribute value passes its setter's check, except a removed `styles` |
| WebComponent.AttributeChangedEffect | src/web-component.ts:417-484 | an attribute change throws iff `styles` is removed, with the styles message; otherwise that property takes the parsed value (`sources` through the reader as written) and nothing else changes |
| WebComponent.SourcesAttributeKeepsOnlySrc | src/web-component.ts:468-469 | a `sources` attribute listing two or more sources in the documented syntax leaves the element with their `src` only, and changes no other property |
| WebComponent.StylesAttribute | src/web-component.ts:474-482 | `styles="none"` stores false; any other text stores that text |
| WebComponent.OnDismount | src/web-component.ts:401-405 | a registered clean-up joins the end of the list |
| WebComponent.OnDismountAllAppends | src/web-component.ts:401-405 | registering several clean-ups appends them in order |
| WebComponent.Disconnect | src/web-component.ts:411-415 | disconnection runs every clean-up once, in registration order, and empties the list |
| WebComponent.DisconnectTwice | src/web-component.ts:411-415 | a second disconnection runs nothing |
| Replace.Replace | src/utilities/repalce.ts:1-16 | the copy has the same length and the same elements off the index; an index outside the array returns a plain copy |
| Replace.ReplaceAt | src/utilities/repalce.ts:10-14 | a value lands at the index; a function receives the old element and its result lands there |
| Replace.ApplyIsValue | src/utilities/repalce.ts:10-14 | replacing by a function equals replacing by its value at the old element |
| Replace.ReplaceRestore | src/utilities/repalce.ts:1-16 | putting the old element back undoes a replacement |
| Replace.ReplaceOverwrites | src/utilities/repalce.ts:1-16 | the later of two replacements at one index is the one that stays |
| Replace.ReplaceCommutes | src/utilities/repalce.ts:1-16 | replacements at two different indices commute |
| Playback.InitialVolume | src/hooks/playback-controls.ts:7-11 | the volume starts as the stored one when persistence is on and a value is stored, else 1 |
| Playback.Init | src/hooks/playback-controls.ts:7-16 | the hook starts paused, with controls shown, no timer and zero progress |
| Playback.StartHideTimeout | src/hooks/playback-controls.ts:18-33 | a timer is armed iff there is no event or the event is outside the controls, with `controlsTimeout ?? 1000`; nothing else changes |
| Playback.MouseMove | src/hooks/playback-controls.ts:35-38 | a mouse move shows the controls; a hide timer is pending afterwards iff the pointer is on an HTML element outside the controls |
| Playback.Play | src/hooks/playback-controls.ts:40-45 | play sets the playing flag and the progress `currentTime / duration`, and arms the hide timer |
| Playback.Pause | src/hooks/playback-controls.ts:47-52 | pause clears the playing flag, shows the controls, sets the progress, and leaves any pending timer running |
| Playback.TimerFires | src/hooks/playback-controls.ts:26-30 | the timer hides the controls iff the video plays, and is no longer pending |
| Playback.TimeUpdate | src/hooks/playback-controls.ts:54-59 | only a truthy duration moves the progress |
| Playback.FirstCover | src/hooks/playback-controls.ts:66-76 | the index found is the first range that starts at most 16 s after the play head and ends after it |
| Playback.ScanBuffered | src/hooks/playback-controls.ts:65-76 | the loop yields the end of that first range, or 0 when none covers the play head |
| Playback.BufferProgress | src/hooks/playback-controls.ts:61-79 | with no ranges or a NaN duration the state is unchanged; otherwise the buffer progress is the end of the first range whose start minus 16 s is at or before the play head and whose end is at or after it, over the duration, or 0 over the duration when no range qualifies; nothing else changes |
| Playback.BufferProgressExamples | src/hooks/playback-controls.ts:62-78 | range [0, 10], duration 20: play head 9.5 gives 0.5 and play head 11 gives 0; range [20, 30], duration 40: play head 5 (inside the 16 s slack) gives 0.75 |
| Playback.VolumeChange | src/hooks/playback-controls.ts:81-86 | the volume always changes; the store changes iff persistence is on |
| Playback.MouseLeave | src/hooks/playback-controls.ts:88-92 | leaving hides the controls iff the video plays |
| Playback.RunKeepsControls | src/hooks/playback-controls.ts:18-92 | after any sequence of events a paused player shows its controls |
| Playback.PlayThenQuiet | src/hooks/playback-controls.ts:40-52 | a play followed only by the timer hides the controls; a pause followed by the timer keeps them |
| Playback.MoveOverControls | src/hooks/playback-controls.ts:23-25 | a mouse move over the controls shows them and arms no timer that could hide them |
| Playback.VolumePersists | src/hooks/playback-controls.ts:81-86 | a volume stored with persistence on is the volume a new player starts with |
| Playback.ProgressBeforeMetadata | src/hooks/playback-controls.ts:40-59 | with a NaN duration play and pause set the progress to NaN and a time update leaves it alone |
| Subtrack.LiftCue | src/hooks/subtrack-controller.ts:5-13 | an auto cue moves to line −3 − (number of newlines); a numbered cue is untouched |
| Subtrack.LiftCueIdempotent | src/hooks/subtrack-controller.ts:5-13 | lifting twice is lifting once, and resetting undoes a lift |
| Subtrack.ResetCues | src/hooks/subtrack-controller.ts:15-23 | every cue returns to line auto, text unchanged |
| Subtrack.ResetCuesIdempotent | src/hooks/subtrack-controller.ts:15-23 | resetting is idempotent and erases any lift |
| Subtrack.LiftActiveIdempotent | src/hooks/subtrack-controller.ts:41-44 | lifting a track's active cues twice is lifting them once |
| Subtrack.Select | src/hooks/subtrack-controller.ts:32-51 | the tracks with the id show and every other hides; each shown track queues its delayed lift; the active track becomes the id iff some track has it |
| Subtrack.SelectThenLift | src/hooks/subtrack-controller.ts:32-51 | with distinct ids and no lift pending, selecting a track queues exactly its lift, and when the timer fires that track, now showing, has its active cues lifted and the others are as the selection left them |
| Subtrack.SelectLastWins | src/hooks/subtrack-controller.ts:32-51 | of two selections the later one decides every track's mode |
| Subtrack.SelectShowsOne | src/hooks/subtrack-controller.ts:32-51 | with distinct ids, selecting one track after any other leaves exactly that track showing and active |
| Subtrack.DelayedLift | src/hooks/subtrack-controller.ts:40-45 | the delayed step lifts the active cues of the track it was queued for and touches no other track |
| Subtrack.DelayedLiftTouchesActiveOnly | src/hooks/subtrack-controller.ts:41-44 | the delayed lift leaves cues that are not active unchanged |
| Subtrack.Disable | src/hooks/subtrack-controller.ts:53-61 | every showing track hides with its cues reset; others are untouched; the active track is cleared iff some track was showing |
| Subtrack.RunCleanup | src/hooks/subtrack-controller.ts:80-83 | the stored clean-up removes its listener and leaves none stored |
| Subtrack.ControlsShown | src/hooks/subtrack-controller.ts:63-91 | showing lifts the showing tracks, attaches their listeners and leaves the clean-up removing the last one attached; hiding resets them and removes the stored listener |
| Subtrack.CueChange | src/hooks/subtrack-controller.ts:70-76 | a cue change lifts the track's active cues iff its listener is attached |
| Subtrack.ControlsShownAccounted | src/hooks/subtrack-controller.ts:63-91 | with at most one showing track every attached listener has its clean-up stored |
| Subtrack.Dispose | src/hooks/subtrack-controller.ts:93-96 | the registered clean-up removes the stored listener, detaches the `showControls` listener and leaves no clean-up stored; tracks, active id and pending lifts are unchanged |
| Subtrack.Create | src/hooks/subtrack-controller.ts:63-91 | the hook starts attached with no active track and nothing pending, and the listener has already run once with the current `show`: showing tracks are lifted and listened, with the last one's clean-up stored, or reset with no listener when hidden |
| Subtrack.CreateThenDispose | src/hooks/subtrack-controller.ts:63-96 | with at most one showing track, creating then disposing leaves no listener and the hook detached |
| Subtrack.DisposeRemovesListeners | src/hooks/subtrack-controller.ts:93-96 | disposal then removes every listener |
| Subtrack.TwoShowingLeaves | src/hooks/subtrack-controller.ts:67-84 | with two showing tracks the first track's listener survives disposal |
| SubtitleSelect.Press | src/components/subtitle-select.tsx:29-33 | the button toggles the popover |
| SubtitleSelect.PressTwice | src/components/subtitle-select.tsx:29-33 | pressing twice restores the popover |
| SubtitleSelect.DocumentClick | src/components/subtitle-select.tsx:35-49 | an open popover closes iff the click lands on an element outside the button |
| SubtitleSelect.ClickNeverOpens | src/components/subtitle-select.tsx:35-49 | a document click never opens the popover nor touches the tracks |
| SubtitleSelect.Choose | src/components/subtitle-select.tsx:65-70 | a track item selects its track and closes the popover |
| SubtitleSelect.ChooseNone | src/components/subtitle-select.tsx:76-105 | the None item disables subtitles, and its click bubbles to the button, which closes the open popover |
| SubtitleSelect.ActiveExclusive | src/components/subtitle-select.tsx:55-84 | every marked track item carries the selected id; when the rendered items' ids are distinct at most one of them is marked, and none while None is marked |
| SubtitleSelect.DuplicateIdsBothActive | src/components/subtitle-select.tsx:59-63 | items are marked by id alone, so two items sharing the selected id are both marked |
| SubtitleSelect.ChooseMarksItem | src/components/subtitle-select.tsx:63-70 | choosing a track marks exactly that item active |
| SubtitleSelect.ChooseNoneMarksNone | src/components/subtitle-select.tsx:76-84 | choosing None while a track shows marks None and no track item |
| SubtitleSelect.ButtonShownIff | src/components/subtitle-select.tsx:90-91 | the button shows iff there is at least one subtitle track |
| Slider.PointerMove | src/components/video-track.tsx:51-64 | only a pressed slider sends a value |
| Slider.PointerDown | src/components/video-track.tsx:32-41 | a secondary mouse button is ignored; any other press presses the slider and sends the pointer's value |
| Slider.PointerUp | src/components/video-track.tsx:43-47 | a release unpresses the slider and sends nothing |
| Slider.SliderValueRange | src/components/video-track.tsx:55-62 | the value sent is NaN iff the current value is not finite or the position is 0/0; otherwise it lies in [0, 1] |
| Slider.PercentNaN | src/components/video-track.tsx:55 | the position is NaN iff the slider has zero width and the pointer is on its edge |
| Slider.SliderValueNearPointer | src/components/video-track.tsx:55-62 | over the slider, the value sent is within half a step (plus the truncation) of the pointer's position |
| Slider.SentInRange | src/components/volume-control.tsx:28-62 | over any sequence of pointer events every value sent is NaN or in [0, 1] |
| Slider.NoPressNoValue | src/components/volume-control.tsx:28-43 | an unpressed slider sends nothing until a press it accepts |
| Slider.BarAndThumb | src/components/volume-control.tsx:19-25 | bar and thumb offsets lie in [0, 100] unless NaN, and for a value in [0, 1] the thumb sits where the bar ends |
| VideoTrack.PreviewFor | src/components/video-track.tsx:66-89 | no preview without a preview URL or on mobile; the width defaults to 320 when neither dimension is given |
| VideoTrack.ThrottleTime | src/components/video-track.tsx:94 | the throttle defaults to 250 ms |
| VideoTrack.PreviewOnScreen | src/components/video-track.tsx:141-146 | the preview stays inside the window and is centred on the pointer whenever that fits |
| VideoTrack.PreviewTime | src/components/video-track.tsx:104-114 | the preview seeks only to a finite time, the stepped position times the duration |
| VideoTrack.PreviewTimeNeedsFiniteDuration | src/components/video-track.tsx:104-114 | a non-finite duration or current value never moves the preview; finite inputs always do |
| VideoTrack.MouseMove | src/components/video-track.tsx:131-149 | a move outside the hover changes nothing; over the track the preview's left is the clamped centred offset, and its time becomes the stepped pointer time when that is finite and stays as it was otherwise |
| VideoTrack.MouseMoveOnScreen | src/components/video-track.tsx:104-114 | when the preview fits in the window a move keeps all of it on screen, and a changed frame time is the finite product of the stepped pointer fraction and the duration |
| VideoTrack.MouseEnter | src/components/video-track.tsx:121-124 | entering sets the hover flag and displays the preview, keeping its offset and frame |
| VideoTrack.MouseLeave | src/components/video-track.tsx:126-129 | leaving clears the hover flag and hides the preview, keeping its offset and frame |
| VideoTrack.EnterThenMove | src/components/video-track.tsx:121-149 | after an enter, also one following a leave, a move places the displayed preview at the clamped offset under the pointer |
| VideoTrack.LeaveFreezesPreview | src/components/video-track.tsx:126-132 | after the mouse leaves, moves no longer move the preview |
| VolumeControl.DragPastTheEnds | src/components/volume-control.tsx:47-62 | dragging left of the slider mutes; dragging right of it gives full volume |
| VolumeControl.DragToStartMutes | src/components/volume-control.tsx:47-62 | from any volume a whole number of steps from 0, the left edge gives the muted state |
| TimeDisplay.DisplayIsFormatTime | src/components/time-display.tsx:19-37 | the display's own computation is `formatTime` |
| TimeDisplay.InitialIsZero | src/components/time-display.tsx:10 | the initial text is the rendering of time 0 |
| TimeDisplay.Show | src/components/time-display.tsx:14-37 | hidden, the last text is kept; visible, the current time is rendered and remembered |
| TimeDisplay.RunSnoc | src/components/time-display.tsx:11-39 | each evaluation extends the run by one step |
| TimeDisplay.RunShowsLastVisible | src/components/time-display.tsx:10-39 | after any run the text is the rendering of the last visible evaluation's time, or `00:00` |
| TimeDisplay.RunDecodes | src/components/time-display.tsx:10-39 | the text shown always reads back as whole seconds of a time sampled while visible |
| GlobalEvents.On | src/hooks/global-events-controller.ts:14-22 | `on` adds the listener and records its removal, on the window unless the document is named |
| GlobalEvents.DefaultTargetIsWindow | src/hooks/global-events-controller.ts:17 | omitting the target is the window |
| GlobalEvents.RunCleanupsRemoves | src/hooks/global-events-controller.ts:21 | running the clean-ups removes exactly the recorded listeners |
| GlobalEvents.OnAllEffect | src/hooks/global-events-controller.ts:14-22 | registrations add their listeners and append their clean-ups in order |
| GlobalEvents.RegisterThenCleanUp | src/hooks/global-events-controller.ts:14-22 | registering new listeners and running the clean-ups restores the listener set |
| Fullscreen.Click | src/hooks/fullscreen-controller.ts:11-21 | a click exits when fullscreen and requests fullscreen otherwise |
| Fullscreen.Toggle | src/hooks/fullscreen-controller.ts:23-29 | the flag is false iff no vendor reports a fullscreen element |
| Fullscreen.AfterRequest | src/hooks/fullscreen-controller.ts:15-19 | a denied request leaves the flag alone |
| Fullscreen.AfterClick | src/hooks/fullscreen-controller.ts:11-29 | after a click and the browser's answer the flag is set iff the player was out of fullscreen and the request was granted |
| Fullscreen.FirstClickRequests | src/hooks/fullscreen-controller.ts:9-21 | the flag starts false, so the first click requests fullscreen and the flag becomes the browser's answer; when the document is already in fullscreen the starting flag disagrees with what a change event would set |
| Fullscreen.ClickRoundTrip | src/hooks/fullscreen-controller.ts:11-29 | a click in fullscreen exits it; a click outside ends in fullscreen iff the request is granted; a granted click followed by a second one comes back out |
| Fullscreen.Registrations | src/hooks/fullscreen-controller.ts:31-34 | the handler is added for the four vendor change events on the document |
| Fullscreen.AddThenRemove | src/hooks/fullscreen-controller.ts:31-43 | the dismount clean-up removes exactly the four listeners added |
| Stylesheets.Mount | src/utilities/mount-stylesheet.ts:3-32 | no head gives a no-op handle; a mounted text gives a shared handle; a new text appends one element and records it |
| Stylesheets.RemoveNode | src/utilities/mount-stylesheet.ts:14 | `remove()` takes out the element with that identity and keeps every other |
| Stylesheets.Remove | src/utilities/mount-stylesheet.ts:11-30 | each handle's `remove()` removes its element and forgets the text |
| Stylesheets.MountValid | src/utilities/mount-stylesheet.ts:21-24 | mounting keeps every recorded text pointing at an element of the head |
| Stylesheets.RemoveValid | src/utilities/mount-stylesheet.ts:11-30 | removing keeps that invariant |
| Stylesheets.NoHeadNoEffect | src/utilities/mount-stylesheet.ts:4-7 | without a head nothing happens |
| Stylesheets.MountThenRemove | src/utilities/mount-stylesheet.ts:21-31 | mounting a new text and removing it restores the head and the record |
| Stylesheets.SharedRemoveTakesTheElement | src/utilities/mount-stylesheet.ts:9-19 | a second mount adds nothing, and its removal takes out the element the first mount added |
| Signalize.Signalize | src/utilities/signalize.ts:18-26 | each property becomes the signal of its value, keys kept in order |
| Signalize.Get | src/utilities/signalize.ts:29-37 | a present key returns its entry unchanged; an absent one gains a fresh empty signal, returned and kept |
| Signalize.GetStable | src/utilities/signalize.ts:29-40 | after a read the key is listed by `ownKeys` and later reads return the same signal |
| Signalize.GetKeepsEntries | src/utilities/signalize.ts:29-37 | reads never drop a key or change an existing signal |
| Signalize.ReadsOfSignalized | src/utilities/signalize.ts:18-37 | every original key reads as the signal of its value, whatever was read before |
| Player.VideoSrc | src/player.component.tsx:169-171 | `src` is set iff the sources value is a string, and is that string |
| Player.Dimension | src/player.component.tsx:172-181 | width and height are the properties when not fullscreen and unset when fullscreen |
| Player.DimensionRestored | src/player.component.tsx:172-181 | fullscreen changes a dimension iff one was set |
| Player.StyleFor | src/player.component.tsx:198-204 | `false` renders no style, a string renders itself, anything else renders the default |
| Player.StylesAttributeRendered | src/player.component.tsx:198-204 | `styles="none"` renders nothing, other text renders itself, and a never-set `styles` renders the default |
| Player.OnSeek | src/player.component.tsx:236-244 | a seek is a no-op while the duration is NaN; it throws iff duration × p is not finite; otherwise the time becomes duration × p and the progress p |
| Player.SeekAll | src/player.component.tsx:236-244 | after a drag's seeks the time and the progress are those of the last seek that did not throw, and nothing changed if every seek threw |
| Player.SeekLandsInVideo | src/player.component.tsx:236-244 | a seek from the seek track lands at a time in [0, d] with progress in [0, 1]; a NaN value throws and changes nothing |
| Player.SeekKeepsTimeInStep | src/player.component.tsx:241-243 | after a seek that does not throw, the time is the duration times the progress, and finite |
| Player.SeekOnEndlessVideo | src/player.component.tsx:241-242 | on a video of infinite duration every seek throws and changes nothing |
| Player.SeekBeforeMetadata | src/player.component.tsx:237-239 | before the metadata loads no seek changes anything |

## Left out

- JSX rendering and the DOM node trees are not modelled. The model keeps
  only the values rendered: class flags, styles, the presence of the button
  and the preview.
- The following files are not part of this model, so the model only takes
  their results as inputs: `detectMobile`, `stopEvent`, and the
  `sources.tsx`, `sub-tracks.tsx`, `start-button.tsx` and
  `fullscreen-button.tsx` components.
- `countChar` is not part of this model either. `Text.CountChar` assumes it
  counts the occurrences of a character in a string, which is what its name
  and its use for the lines of a cue suggest.
- `Slider`: the volume slider and its children handle `pointermove` with
  `stopEvent`. If that stops propagation, as its name suggests, moves over
  the volume slider itself never reach the window's listener, and the
  volume does not follow the pointer there. The model sends a value for
  every move it is given, and does not decide which moves reach the window.
- `Text`: JavaScript strings are sequences of UTF-16 code units, while a
  Dafny `string` is a sequence of Unicode scalar values. Lengths and
  indices differ for characters outside the Basic Multilingual Plane. The
  operations modelled (splitting on `;;`, trimming, padding digits) do not
  depend on the difference.
- The signal library (`sig`, `derive`, `dispatch`, batching) is not
  modelled. Signals are plain fields, and a derived value is a function of
  its inputs.
- Real time is not modelled:
  - timers are explicit fire steps;
  - `lodash.throttle` timing (leading and trailing calls) is left out;
  - the 25 ms cue delay is a queued `DelayedLift` step.
- IEEE-754 rounding and the sign of zero are not modelled. The numerics are
  exact over `real`, so equalities such as `changeWithStep` landing on a
  step hold exactly, which doubles do not promise.
- `Number(text)` and `String(number)` are uninterpreted function parameters
  (`toNumber`, `show`).
- `Playback.VolumePersists`: the round trip assumes `toNumber(show(v)) == v`,
  which JavaScript guarantees for doubles but the model cannot state.
- Browser APIs are abstracted:
  - `localStorage` is a map;
  - the fullscreen request and exit promises become a `granted` flag;
  - `getBoundingClientRect` gives plain numbers;
  - `customElements.define`, the shadow DOM and `connectedCallback` (which
    only renders the player) are left out.
- `Subtrack.LiftCue`: the Chrome work-around of setting `cue.line = 1`
  before the final line is not modelled. Only the final value is observable.
- `Replace.Replace`: the index is an `int`. JavaScript's `idx in arrCopy`
  also accepts numeric strings and rejects fractions and holes. A sparse
  array is not modelled.
- `Replace.Update`: `typeof value === "function"` becomes an explicit
  choice between a value and a function, so a function stored as an
  element value is not modelled.
- `WebComponent.Disconnect`: clean-up callbacks are assumed not to throw.
  In the source the `splice` empties the list before any callback runs. A
  throwing callback then stops the `forEach`, and the callbacks after it
  never run and are no longer listed (src/web-component.ts:411-414).
- `Player`: the player calls `usePlaybackControls` with four arguments,
  where the hook takes two. Each file is modelled from its own code.
- The keyboard, touch and swipe handlers of the player component
  (`capturer`, `swipeControlRange`) are not modelled.
- `VolumeControl`, `SubtitleSelect`: the player (src/player.component.tsx:251-260)
  passes `VolumeControl` only `volume` and `onVolumeChange`. It passes
  `SubtitleSelect` neither `globalEvents` nor `addCleanup`. Both components
  read those props (src/components/volume-control.tsx:17, 64-65;
  src/components/subtitle-select.tsx:19, 26, 51). As with `Player`, each
  component is modelled from its own code, with those props taken as given.
  The icon's mute toggle (`onVolumeToggle`), which the player never supplies,
  is not modelled.
- `Signalize`: `sig.as` on a value that is already a signal returns that
  signal. Here every value is wrapped once.

## Findings

| source | as written | input that shows it | evidently intended | confidence | as-written member | corrected member |
|---|---|---|---|---|---|---|
| src/web-component.ts:257-293 | `parseSources` never resets `fname` and `value` after a field and never assigns the last field; when the first field is named `src`, `type` or `label`, only that field can be stored | `src=video.mp4,type=video/mp4,label=1080p;;src=video.webm,type=video/webm,label=720p` gives `type` and `label` empty for both sources | each field assigned and reset, as in `parseSubtitles` (src/web-component.ts:322-368) and the example at src/web-component.ts:250 | high, not executed | AttributeParse.AsWrittenSourcesKeepOnlySrc | AttributeParse.ParseRenderSources |
